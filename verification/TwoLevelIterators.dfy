/** The two-level iterator: an index over blocks, some perhaps empty, moves like one cursor over all their entries. */
module TwoLevelIterators {
  import opened Basics
  import opened Separators
  import opened Tables

  /** Every index key is at or after the keys of its block and before all keys of later blocks. */
  ghost predicate Ranged(blocks: seq<seq<TableEntry>>, index: seq<TableKey>) {
    && |index| == |blocks| && Sorted(Flatten(blocks))
    && (forall i, k :: 0 <= i < |blocks| && 0 <= k < |blocks[i]| ==> !Less(index[i], blocks[i][k].key))
    && (forall i, j, k :: 0 <= i < j < |blocks| && 0 <= k < |blocks[j]| ==> Less(index[i], blocks[j][k].key))
  }

  class TwoLevelIterator {
    const blocks: seq<seq<TableEntry>>
    const index: seq<TableKey>
    /** The place of the index iterator; the number of blocks when it is not valid. */
    var block: nat
    /** The block of the data iterator and its place there, which is the block's length when it is not valid. */
    var data: Option<(nat, nat)>

    ghost predicate Shape()
      reads this
    {
      && |index| == |blocks| && block <= |blocks|
      && (data.Some? ==> data.value.0 < |blocks| && data.value.1 <= |blocks[data.value.0]|)
    }

    predicate Valid()
      requires data.Some? ==> data.value.0 < |blocks|
      reads this
    {
      data.Some? && data.value.1 < |blocks[data.value.0]|
    }

    /** On an entry of the block the index iterator is on, or nowhere. */
    ghost predicate Ok()
      reads this
    {
      Shape() && if Valid() then block == data.value.0 else data.None? && block == |blocks|
    }

    /** The place in the list of all entries; its length when there is no current entry. */
    ghost function At(): nat
      requires Ok()
      reads this
    {
      if Valid() then StartOf(blocks, block) + data.value.1 else |Flatten(blocks)|
    }

    constructor (blocks: seq<seq<TableEntry>>, index: seq<TableKey>)
      requires |index| == |blocks|
      ensures Ok() && !Valid() && this.blocks == blocks && this.index == index
    {
      this.blocks, this.index, block, data := blocks, index, |blocks|, None;
    }

    function Current(): TableEntry
      requires Shape() && Valid()
      reads this
    {
      blocks[data.value.0][data.value.1]
    }

    /** A data iterator for the block the index iterator is on; one for that block already stays as it is. */
    method InitDataBlock()
      requires Shape()
      modifies this`data
      ensures Shape() && (data.Some? <==> block < |blocks|) && (data.Some? ==> data.value.0 == block)
    {
      if block == |blocks| {
        data := None;
      } else if data.None? || data.value.0 != block {
        data := Some((block, |blocks[block]|));
      }
    }

    /** From the end of a block to the first entry of a later block that has one. */
    method SkipEmptyDataBlocksForward(ghost at: nat)
      requires Shape() && (data.Some? <==> block < |blocks|) && (data.Some? ==> data.value.0 == block)
      requires at == StartOf(blocks, block) + if data.Some? then data.value.1 else 0
      modifies this
      ensures Ok() && At() == at
    {
      while data.None? || !Valid()
        invariant Shape() && (data.Some? <==> block < |blocks|) && (data.Some? ==> data.value.0 == block)
        invariant at == StartOf(blocks, block) + if data.Some? then data.value.1 else 0
        decreases |blocks| - block
      {
        if block == |blocks| {
          data := None;
          assert blocks[..block] == blocks;
          return;
        }
        StartNext(blocks, block);
        block := block + 1;
        InitDataBlock();
        if data.Some? {
          data := Some((block, 0));
        }
      }
    }

    /** From before the start of a block to the last entry of an earlier block that has one. */
    method SkipEmptyDataBlocksBackward(ghost before: nat)
      requires Shape() && (data.Some? <==> block < |blocks|) && (data.Some? ==> data.value.0 == block)
      requires before == if data.None? then 0 else if Valid() then StartOf(blocks, block) + data.value.1 + 1
                else StartOf(blocks, block)
      modifies this
      ensures Ok() && At() == if before == 0 then |Flatten(blocks)| else before - 1
    {
      while data.None? || !Valid()
        invariant Shape() && (data.Some? <==> block < |blocks|) && (data.Some? ==> data.value.0 == block)
        invariant before == if data.None? then 0 else if Valid() then StartOf(blocks, block) + data.value.1 + 1
                  else StartOf(blocks, block)
        decreases if block == |blocks| then 0 else block + 1
      {
        if block == |blocks| {
          data := None;
          return;
        }
        StepBack();
      }
    }

    /** The index iterator moves to the block before, or off the front, and the data iterator to its last entry. */
    method StepBack()
      requires Shape() && block < |blocks|
      modifies this
      ensures Shape() && (data.Some? <==> block < |blocks|) && (data.Some? ==> data.value.0 == block)
      ensures old(block) == 0 ==> block == |blocks|
      ensures old(block) > 0 ==> block == old(block) - 1
      ensures data.Some? && Valid() ==> StartOf(blocks, block) + data.value.1 + 1 == StartOf(blocks, old(block))
      ensures data.Some? && !Valid() ==> StartOf(blocks, block) == StartOf(blocks, old(block))
    {
      ghost var from := block;
      block := if block == 0 then |blocks| else block - 1;
      InitDataBlock();
      if data.Some? {
        StartNext(blocks, block);
        data := Some((block, if blocks[block] == [] then 0 else |blocks[block]| - 1));
      }
    }

    method SeekToFirst()
      requires Shape()
      modifies this
      ensures Ok() && At() == 0
    {
      block := 0;
      InitDataBlock();
      if data.Some? {
        data := Some((block, 0));
      }
      SkipEmptyDataBlocksForward(0);
    }

    method SeekToLast()
      requires Shape()
      modifies this
      ensures Ok() && At() == if Flatten(blocks) == [] then 0 else |Flatten(blocks)| - 1
    {
      block := if |blocks| == 0 then 0 else |blocks| - 1;
      InitDataBlock();
      if data.Some? {
        StartNext(blocks, block);
        data := Some((block, if blocks[block] == [] then 0 else |blocks[block]| - 1));
      }
      assert blocks[..|blocks|] == blocks;
      SkipEmptyDataBlocksBackward(|Flatten(blocks)|);
    }

    method Next()
      requires Ok() && Valid()
      modifies this
      ensures Ok() && At() == old(At()) + 1
    {
      data := Some((data.value.0, data.value.1 + 1));
      SkipEmptyDataBlocksForward(old(At()) + 1);
    }

    method Prev()
      requires Ok() && Valid()
      modifies this
      ensures Ok() && At() == if old(At()) == 0 then |Flatten(blocks)| else old(At()) - 1
    {
      var k := data.value.1;
      data := Some((data.value.0, if k == 0 then |blocks[data.value.0]| else k - 1));
      SkipEmptyDataBlocksBackward(old(At()));
    }

    /** Moves to the first of all entries at or after the target. */
    method Seek(target: TableKey)
      requires Shape() && Ranged(blocks, index)
      modifies this
      ensures Ok() && At() == FirstAt(Flatten(blocks), target)
    {
      hide Flatten, FirstAt;
      block := 0;
      while block < |blocks| && Less(index[block], target)
        invariant Shape() && forall i :: 0 <= i < block ==> Less(index[i], target)
      {
        block := block + 1;
      }
      InitDataBlock();
      if data.Some? {
        data := Some((block, FirstAt(blocks[block], target)));
      }
      SoughtPlace(blocks, index, target, block);
      SkipEmptyDataBlocksForward(FirstAt(Flatten(blocks), target));
    }
  }

  /** The first entry at or after the target is where the search in the first block that may hold it stops. */
  lemma SoughtPlace(blocks: seq<seq<TableEntry>>, index: seq<TableKey>, target: TableKey, b: nat)
    requires Ranged(blocks, index) && b <= |blocks|
    requires (b < |blocks| ==> !Less(index[b], target)) && forall i :: 0 <= i < b ==> Less(index[i], target)
    ensures FirstAt(Flatten(blocks), target) == StartOf(blocks, b) +
              if b < |blocks| then FirstAt(blocks[b], target) else 0
  {
    var all := Flatten(blocks);
    var p := StartOf(blocks, b) + if b < |blocks| then FirstAt(blocks[b], target) else 0;
    StartFits(blocks, b);
    if b < |blocks| {
      StartNext(blocks, b);
      StartFits(blocks, b + 1);
    }
    forall j | 0 <= j < |all|
      ensures j < p <==> Less(all[j].key, target)
    {
      var i, k := LocateBlock(blocks, j);
      InFlatten(blocks, i, k);
      PlaceOrder(blocks, i, b);
      PlaceOrder(blocks, b, i);
      if i < b {
        LessTotal(index[i], blocks[i][k].key);
        if Less(blocks[i][k].key, index[i]) {
          LessTransitive(blocks[i][k].key, index[i], target);
        }
      } else if i > b {
        LessTotal(index[b], target);
        if Less(target, index[b]) {
          LessTransitive(target, index[b], blocks[i][k].key);
        }
        LessTotal(target, blocks[i][k].key);
      } else {
        BlockSplit(blocks, b, target, k);
      }
    }
    FirstAtIs(all, target, p);
  }

  /** A block that comes before another ends where the other starts or earlier. */
  lemma {:induction false} PlaceOrder(blocks: seq<seq<TableEntry>>, i: nat, j: nat)
    requires i <= |blocks| && j <= |blocks|
    ensures i < j ==> StartOf(blocks, i) + |blocks[i]| <= StartOf(blocks, j)
    decreases j
  {
    if i < j {
      StartNext(blocks, j - 1);
      PlaceOrder(blocks, i, j - 1);
    }
  }

  lemma BlockSplit(blocks: seq<seq<TableEntry>>, b: nat, target: TableKey, k: nat)
    requires Sorted(Flatten(blocks)) && b < |blocks| && k < |blocks[b]|
    ensures k < FirstAt(blocks[b], target) <==> Less(blocks[b][k].key, target)
  {
    var f := FirstAt(blocks[b], target);
    if f < k {
      InFlatten(blocks, b, f);
      InFlatten(blocks, b, k);
      LessTotal(blocks[b][f].key, target);
      LessTotal(blocks[b][k].key, target);
      if Less(target, blocks[b][f].key) {
        LessTransitive(target, blocks[b][f].key, blocks[b][k].key);
      }
    }
  }

  /** The index of a table is one the iterator may use. */
  lemma TableIsRanged(blocks: seq<seq<TableEntry>>, index: seq<TableKey>)
    requires Indexed(blocks, index)
    ensures Ranged(blocks, index)
  {
    forall i, k | 0 <= i < |blocks| && 0 <= k < |blocks[i]|
      ensures !Less(index[i], blocks[i][k].key)
    {
      assert IndexOk(blocks, index, i);
      var m := |blocks[i]| - 1;
      InFlatten(blocks, i, k);
      InFlatten(blocks, i, m);
      if Less(index[i], blocks[i][k].key) && k < m {
        LessTransitive(index[i], blocks[i][k].key, blocks[i][m].key);
      }
    }
    forall i, j, k | 0 <= i < j < |blocks| && 0 <= k < |blocks[j]|
      ensures Less(index[i], blocks[j][k].key)
    {
      assert IndexOk(blocks, index, i) && IndexOk(blocks, index, i + 1);
      InFlatten(blocks, i + 1, 0);
      InFlatten(blocks, j, k);
      PlaceOrder(blocks, i + 1, j);
      if i + 1 < j || k > 0 {
        LessTransitive(index[i], blocks[i + 1][0].key, blocks[j][k].key);
      }
    }
  }
}
