/** Tables: blocks behind an index of shortened keys and a filter, and the two-step lookup through them. */
module Tables {
  import opened Basics
  import opened Separators
  import Blooms
  import Filters

  datatype TableEntry = TableEntry(key: TableKey, val: seq<byte>)

  /** A block trailer: the compression type and a checksum. */
  const TRAILER_SIZE: nat := 5

  predicate Sorted(es: seq<TableEntry>) {
    forall i, j :: 0 <= i < j < |es| ==> Less(es[i].key, es[j].key)
  }

  function Flatten(blocks: seq<seq<TableEntry>>): seq<TableEntry> {
    if blocks == [] then [] else Flatten(blocks[..|blocks| - 1]) + blocks[|blocks| - 1]
  }

  /** A finished table; handles are the file offsets of the blocks. */
  datatype Table = Table(blocks: seq<seq<TableEntry>>, index: seq<TableKey>, handles: seq<nat>,
                         filter: Option<seq<byte>>)

  /** The index key of a block is at or after its last key and before the first key of the next block, and separates
      the two. */
  ghost predicate IndexOk(blocks: seq<seq<TableEntry>>, index: seq<TableKey>, i: nat)
    requires i < |blocks| && i < |index|
  {
    && blocks[i] != []
    && var last := blocks[i][|blocks[i]| - 1].key;
       && !Less(index[i], last)
       && (i + 1 < |blocks| && blocks[i + 1] != [] ==> Separates(last, index[i], blocks[i + 1][0].key))
  }

  ghost predicate Indexed(blocks: seq<seq<TableEntry>>, index: seq<TableKey>) {
    && |index| == |blocks| && Sorted(Flatten(blocks))
    && forall i :: 0 <= i < |blocks| ==> IndexOk(blocks, index, i)
  }

  /** The filter lets every key of a block through at that block's offset. */
  ghost predicate FilterOk(hash: Blooms.Hash, t: Table) {
    && |t.handles| == |t.blocks|
    && forall i, k :: 0 <= i < |t.blocks| && 0 <= k < |t.blocks[i]| && t.filter.Some? ==>
         Filters.MayMatch(hash, t.filter.value, t.handles[i], t.blocks[i][k].key.user)
  }

  ghost predicate TableOk(hash: Blooms.Hash, t: Table) {
    Indexed(t.blocks, t.index) && FilterOk(hash, t)
  }

  // ---- the blocks of a sorted list ----

  /** Where block i starts in the whole list. */
  function StartOf(blocks: seq<seq<TableEntry>>, i: nat): nat
    requires i <= |blocks|
  {
    |Flatten(blocks[..i])|
  }

  lemma {:induction false} InFlatten(blocks: seq<seq<TableEntry>>, i: nat, k: nat)
    requires i < |blocks| && k < |blocks[i]|
    ensures StartOf(blocks, i) + k < |Flatten(blocks)|
    ensures Flatten(blocks)[StartOf(blocks, i) + k] == blocks[i][k]
  {
    var n := |blocks| - 1;
    if i < n {
      InFlatten(blocks[..n], i, k);
      assert blocks[..n][..i] == blocks[..i];
    }
  }

  lemma StartNext(blocks: seq<seq<TableEntry>>, i: nat)
    requires i < |blocks|
    ensures StartOf(blocks, i + 1) == StartOf(blocks, i) + |blocks[i]|
  {
    assert blocks[..i + 1][..i] == blocks[..i];
  }

  /** Every place of the whole list is a place of one block. */
  lemma {:induction false} LocateBlock(blocks: seq<seq<TableEntry>>, p: nat) returns (i: nat, k: nat)
    requires p < |Flatten(blocks)|
    ensures i < |blocks| && k < |blocks[i]| && p == StartOf(blocks, i) + k
  {
    var n := |blocks| - 1;
    if p < |Flatten(blocks[..n])| {
      i, k := LocateBlock(blocks[..n], p);
      assert blocks[..n][..i] == blocks[..i];
    } else {
      i, k := n, p - |Flatten(blocks[..n])|;
    }
  }

  /** The first place of a sorted list at or after the target; its length if there is none. */
  function FirstAt(es: seq<TableEntry>, target: TableKey): (p: nat)
    ensures p <= |es| && (p < |es| ==> !Less(es[p].key, target)) && forall i :: 0 <= i < p ==> Less(es[i].key, target)
  {
    if es == [] then 0
    else
      var p := FirstAt(es[..|es| - 1], target);
      if p < |es| - 1 then p else if Less(es[|es| - 1].key, target) then |es| else |es| - 1
  }

  lemma FirstAtIs(es: seq<TableEntry>, target: TableKey, p: nat)
    requires p <= |es| && (p < |es| ==> !Less(es[p].key, target)) && forall i :: 0 <= i < p ==> Less(es[i].key, target)
    ensures FirstAt(es, target) == p
  {
  }

  // ---- lookup ----

  /** In the first block whose index key is not before the target lies the first entry at or after the target, or that
      entry starts the next block and has another user key. */
  lemma BlockHasAnswer(blocks: seq<seq<TableEntry>>, index: seq<TableKey>, target: TableKey, b: nat)
    requires Indexed(blocks, index) && b < |blocks|
    requires !Less(index[b], target) && forall i :: 0 <= i < b ==> Less(index[i], target)
    ensures var all, p, k := Flatten(blocks), FirstAt(Flatten(blocks), target), FirstAt(blocks[b], target);
            if k < |blocks[b]| then p < |all| && all[p] == blocks[b][k]
            else p < |all| ==> all[p].key.user != target.user
  {
    var all, k := Flatten(blocks), FirstAt(blocks[b], target);
    BlocksBefore(blocks, index, target, b);
    StartNext(blocks, b);
    if k < |blocks[b]| {
      InFlatten(blocks, b, k);
      forall j | StartOf(blocks, b) <= j < StartOf(blocks, b) + k
        ensures Less(all[j].key, target)
      {
        InFlatten(blocks, b, j - StartOf(blocks, b));
      }
      FirstAtIs(all, target, StartOf(blocks, b) + k);
    } else {
      forall j | StartOf(blocks, b) <= j < StartOf(blocks, b + 1)
        ensures j < |all| && Less(all[j].key, target)
      {
        InFlatten(blocks, b, j - StartOf(blocks, b));
      }
      StartFits(blocks, b + 1);
      NextBlockStarts(blocks, index, target, b);
    }
  }

  /** All entries of the blocks before b are before the target. */
  lemma BlocksBefore(blocks: seq<seq<TableEntry>>, index: seq<TableKey>, target: TableKey, b: nat)
    requires Indexed(blocks, index) && b <= |blocks| && forall i :: 0 <= i < b ==> Less(index[i], target)
    ensures StartOf(blocks, b) <= |Flatten(blocks)|
    ensures forall j :: 0 <= j < StartOf(blocks, b) ==> Less(Flatten(blocks)[j].key, target)
  {
    StartFits(blocks, b);
    forall j | 0 <= j < StartOf(blocks, b)
      ensures Less(Flatten(blocks)[j].key, target)
    {
      var i, k := LocateBlock(blocks[..b], j);
      assert blocks[..b][..i] == blocks[..i];
      InFlatten(blocks, i, k);
      var m := |blocks[i]| - 1;
      InFlatten(blocks, i, m);
      assert IndexOk(blocks, index, i);
      LessTotal(index[i], blocks[i][m].key);
      if Less(blocks[i][m].key, index[i]) {
        LessTransitive(blocks[i][m].key, index[i], target);
      }
      if k < m {
        LessTransitive(blocks[i][k].key, blocks[i][m].key, target);
      }
    }
  }

  lemma {:induction false} StartFits(blocks: seq<seq<TableEntry>>, b: nat)
    requires b <= |blocks|
    ensures StartOf(blocks, b) <= |Flatten(blocks)|
  {
    if b < |blocks| {
      StartFits(blocks[..|blocks| - 1], b);
      assert blocks[..|blocks| - 1][..b] == blocks[..b];
    } else {
      assert blocks[..b] == blocks;
    }
  }

  /** When block b ends before the target, the first entry of the next block is at or after it, with another user
      key. */
  lemma NextBlockStarts(blocks: seq<seq<TableEntry>>, index: seq<TableKey>, target: TableKey, b: nat)
    requires Indexed(blocks, index) && b < |blocks| && !Less(index[b], target)
    requires FirstAt(blocks[b], target) == |blocks[b]|
    requires StartOf(blocks, b + 1) <= |Flatten(blocks)|
    requires forall j :: 0 <= j < StartOf(blocks, b + 1) ==> Less(Flatten(blocks)[j].key, target)
    ensures var all, p := Flatten(blocks), FirstAt(Flatten(blocks), target);
            p < |all| ==> all[p].key.user != target.user
  {
    var all, p := Flatten(blocks), StartOf(blocks, b + 1);
    assert IndexOk(blocks, index, b);
    if b + 1 < |blocks| {
      assert IndexOk(blocks, index, b + 1);
      InFlatten(blocks, b + 1, 0);
      var first := blocks[b + 1][0].key;
      LessTotal(index[b], target);
      if Less(target, index[b]) {
        LessTransitive(target, index[b], first);
      }
      LessTotal(target, first);
      FirstAtIs(all, target, p);
    } else {
      assert blocks[..b + 1] == blocks;
    }
  }

  /** Block b is the one to look into, and the filter says that it need not be read. */
  ghost predicate RuledOut(hash: Blooms.Hash, t: Table, target: TableKey, b: nat)
    requires b < |t.index| == |t.handles|
  {
    && (forall i :: 0 <= i < b ==> Less(t.index[i], target)) && !Less(t.index[b], target)
    && t.filter.Some? && !Filters.MayMatch(hash, t.filter.value, t.handles[b], target.user)
  }

  /** Table::InternalGet. */
  method InternalGet(hash: Blooms.Hash, t: Table, target: TableKey) returns (r: Option<TableEntry>)
    requires TableOk(hash, t)
    ensures var all, p := Flatten(t.blocks), FirstAt(Flatten(t.blocks), target);
            && (r.Some? ==> p < |all| && r.value == all[p])
            && (p < |all| && all[p].key.user == target.user ==> r == Some(all[p]))
    ensures forall b :: 0 <= b < |t.index| && RuledOut(hash, t, target, b) ==> r == None
  {
    hide Filters.MayMatch, Flatten, FirstAt, Separates;
    var b := 0;
    while b < |t.index| && Less(t.index[b], target)
      invariant b <= |t.index| && forall i :: 0 <= i < b ==> Less(t.index[i], target)
    {
      b := b + 1;
    }
    if b == |t.index| {
      NothingLeft(t.blocks, t.index, target);
      return None;
    }
    BlockHasAnswer(t.blocks, t.index, target, b);
    if t.filter.Some? && !Filters.MayMatch(hash, t.filter.value, t.handles[b], target.user) {
      return None;
    }
    var k := FirstAt(t.blocks[b], target);
    r := if k < |t.blocks[b]| then Some(t.blocks[b][k]) else None;
  }

  lemma NothingLeft(blocks: seq<seq<TableEntry>>, index: seq<TableKey>, target: TableKey)
    requires Indexed(blocks, index) && forall i :: 0 <= i < |index| ==> Less(index[i], target)
    ensures FirstAt(Flatten(blocks), target) == |Flatten(blocks)|
  {
    BlocksBefore(blocks, index, target, |blocks|);
    assert blocks[..|blocks|] == blocks;
  }

  /** The entry a lookup is for: the first one at or after (user, tag) is the newest of the user key with a tag not
      above it, whenever there is any. */
  lemma FirstIsNewest(es: seq<TableEntry>, target: TableKey, e: TableEntry)
    requires Sorted(es) && e in es && e.key.user == target.user && e.key.tag <= target.tag
    ensures var p := FirstAt(es, target);
            p < |es| && es[p].key.user == target.user && e.key.tag <= es[p].key.tag <= target.tag
  {
    var p := FirstAt(es, target);
    var j :| 0 <= j < |es| && es[j] == e;
    LessTotal(e.key, target);
    BeforeTotal(target.user, target.user);
    assert !Less(e.key, target);
    assert p <= j;
    LessTotal(es[p].key, target);
    BeforeTotal(es[p].key.user, target.user);
    if p < j {
      assert Less(es[p].key, es[j].key);
    }
  }

  // ---- building ----

  /** The written blocks and the one being filled. */
  function AllBlocks(blocks: seq<seq<TableEntry>>, data: seq<TableEntry>): seq<seq<TableEntry>> {
    if data == [] then blocks else blocks + [data]
  }

  /** The blocks hold what was added, in order, and every index key but a pending one is chosen. */
  ghost predicate KeysOk(blocks: seq<seq<TableEntry>>, data: seq<TableEntry>, index: seq<TableKey>, pending: bool,
                         lastKey: TableKey, added: seq<TableEntry>)
  {
    && added == Flatten(blocks) + data && Sorted(added) && (added != [] ==> lastKey == added[|added| - 1].key)
    && (forall i :: 0 <= i < |blocks| ==> blocks[i] != [])
    && |index| == |blocks| - (if pending then 1 else 0)
    && (pending ==> data == []) && (data == [] && blocks != [] ==> pending)
    && forall i :: 0 <= i < |index| ==> IndexOk(AllBlocks(blocks, data), index, i)
  }

  lemma SortedAppend(es: seq<TableEntry>, e: TableEntry)
    requires Sorted(es) && (es != [] ==> Less(es[|es| - 1].key, e.key))
    ensures Sorted(es + [e])
  {
    forall i | 0 <= i < |es| - 1
      ensures Less(es[i].key, e.key)
    {
      LessTransitive(es[i].key, es[|es| - 1].key, e.key);
    }
  }

  lemma LastOfAll(blocks: seq<seq<TableEntry>>, data: seq<TableEntry>)
    requires (data == [] ==> blocks != [] && blocks[|blocks| - 1] != [])
    ensures var all := Flatten(blocks) + data;
            var b := if data != [] then data else blocks[|blocks| - 1];
            all != [] && all[|all| - 1] == b[|b| - 1]
  {
  }

  lemma AddKeepsKeys(blocks: seq<seq<TableEntry>>, data: seq<TableEntry>, index: seq<TableKey>, pending: bool,
                     lastKey: TableKey, added: seq<TableEntry>, e: TableEntry, sep: TableKey)
    requires KeysOk(blocks, data, index, pending, lastKey, added)
    requires (added != [] ==> Less(added[|added| - 1].key, e.key)) && (pending ==> Separates(lastKey, sep, e.key))
    ensures KeysOk(blocks, data + [e], if pending then index + [sep] else index, false, e.key, added + [e])
  {
    hide Separates, Flatten, IndexOk, Sorted;
    SortedAppend(added, e);
    assert Flatten(blocks) + data + [e] == Flatten(blocks) + (data + [e]);
    AddKeepsIndex(blocks, data, index, pending, lastKey, added, e, sep);
  }

  lemma AddKeepsIndex(blocks: seq<seq<TableEntry>>, data: seq<TableEntry>, index: seq<TableKey>, pending: bool,
                      lastKey: TableKey, added: seq<TableEntry>, e: TableEntry, sep: TableKey)
    requires KeysOk(blocks, data, index, pending, lastKey, added) && (pending ==> Separates(lastKey, sep, e.key))
    ensures var index' := if pending then index + [sep] else index;
            forall i :: 0 <= i < |index'| ==> IndexOk(AllBlocks(blocks, data + [e]), index', i)
  {
    hide Separates, Flatten, Sorted;
    var index' := if pending then index + [sep] else index;
    var all, all' := AllBlocks(blocks, data), AllBlocks(blocks, data + [e]);
    forall i | 0 <= i < |index'|
      ensures IndexOk(all', index', i)
    {
      if i < |index| {
        OldIndexOk(blocks, data, index, index', e, i);
      } else {
        PendingSeparates(blocks, lastKey, added, sep, e.key);
      }
    }
  }

  /** An index key already chosen still separates its block from the next. */
  lemma OldIndexOk(blocks: seq<seq<TableEntry>>, data: seq<TableEntry>, index: seq<TableKey>, index': seq<TableKey>,
                   e: TableEntry, i: nat)
    requires i < |index| <= |index'| && i < |blocks| && index'[i] == index[i] && (data == [] ==> i + 1 < |blocks|)
    requires IndexOk(AllBlocks(blocks, data), index, i)
    ensures IndexOk(AllBlocks(blocks, data + [e]), index', i)
  {
    hide Separates;
    assert data != [] ==> (data + [e])[0] == data[0];
  }

  lemma PendingSeparates(blocks: seq<seq<TableEntry>>, lastKey: TableKey, added: seq<TableEntry>, sep: TableKey,
                         next: TableKey)
    requires blocks != [] && blocks[|blocks| - 1] != [] && added == Flatten(blocks) + []
    requires added != [] ==> lastKey == added[|added| - 1].key
    requires Separates(lastKey, sep, next)
    ensures var b := blocks[|blocks| - 1]; b[|b| - 1].key == lastKey && !Less(sep, lastKey)
  {
    LastOfAll(blocks, []);
  }

  lemma FlushKeepsKeys(blocks: seq<seq<TableEntry>>, data: seq<TableEntry>, index: seq<TableKey>, pending: bool,
                       lastKey: TableKey, added: seq<TableEntry>)
    requires KeysOk(blocks, data, index, pending, lastKey, added) && data != []
    ensures KeysOk(blocks + [data], [], index, true, lastKey, added)
  {
    hide Separates, Sorted;
    assert (blocks + [data])[..|blocks|] == blocks;
    assert Flatten(blocks + [data]) + [] == Flatten(blocks) + data;
    assert AllBlocks(blocks + [data], []) == AllBlocks(blocks, data);
  }

  /** With the last index key a successor of the last key, the table is indexed. */
  lemma FinishedIndex(blocks: seq<seq<TableEntry>>, index: seq<TableKey>, pending: bool, lastKey: TableKey,
                      added: seq<TableEntry>, last: TableKey)
    requires KeysOk(blocks, [], index, pending, lastKey, added) && (pending ==> !Less(last, lastKey))
    ensures Indexed(blocks, if pending then index + [last] else index) && Flatten(blocks) == added
  {
    hide Separates, Sorted;
    var index' := if pending then index + [last] else index;
    assert Flatten(blocks) + [] == Flatten(blocks);
    forall i | 0 <= i < |blocks|
      ensures IndexOk(blocks, index', i)
    {
      if i < |index| {
        assert IndexOk(AllBlocks(blocks, []), index, i);
      } else {
        LastOfAll(blocks, []);
      }
    }
  }

  class TableBuilder {
    const hash: Blooms.Hash
    const filter: Filters.FilterBlockBuilder?
    var dataBlock: seq<TableEntry>
    var blocks: seq<seq<TableEntry>>
    var index: seq<TableKey>
    var handles: seq<nat>
    var offset: nat
    var pendingIndex: bool
    var lastKey: TableKey
    ghost var added: seq<TableEntry>

    ghost predicate Keys()
      reads this
    {
      KeysOk(blocks, dataBlock, index, pendingIndex, lastKey, added) && |handles| == |blocks|
    }

    ghost predicate Filtered()
      reads this, filter
    {
      filter != null ==>
        && filter.Valid() && filter.hash == hash && filter.block == offset && |handles| == |blocks|
        && (forall i, k :: 0 <= i < |blocks| && 0 <= k < |blocks[i]| ==>
           (handles[i], blocks[i][k].key.user) in filter.added)
        && forall k :: 0 <= k < |dataBlock| ==> (offset, dataBlock[k].key.user) in filter.added
    }

    ghost predicate Valid()
      reads this, filter
    {
      Keys() && Filtered()
    }

    constructor (hash: Blooms.Hash, filter: Filters.FilterBlockBuilder?)
      requires filter != null ==> filter.Valid() && filter.hash == hash && filter.block == 0 && filter.added == []
      ensures Valid() && added == [] && this.hash == hash && this.filter == filter
    {
      this.hash, this.filter := hash, filter;
      dataBlock, blocks, index, handles, offset, pendingIndex := [], [], [], [], 0, false;
      lastKey := TableKey([], 0);
      added := [];
    }

    /** Adds an entry after all others; the index key of the block before it is chosen only now. full says that the
        block has reached its size, which writes it out in size bytes. */
    method Add(entry: TableEntry, full: bool, size: nat)
      requires Valid() && (added != [] ==> Less(added[|added| - 1].key, entry.key))
      modifies this, filter
      ensures Valid() && added == old(added) + [entry]
    {
      AddEntry(entry);
      if full {
        Flush(size);
      }
    }

    method AddEntry(entry: TableEntry)
      requires Valid() && (added != [] ==> Less(added[|added| - 1].key, entry.key))
      modifies this, filter
      ensures Valid() && added == old(added) + [entry]
    {
      hide KeysOk, Filters.FilterBlockBuilder.Valid;
      ghost var index0, pending0, last0 := index, pendingIndex, lastKey;
      LastIsAdded(blocks, dataBlock, index, pendingIndex, lastKey, added);
      if pendingIndex {
        lastKey := SeparatorKey(lastKey, entry.key);
        index := index + [lastKey];
        pendingIndex := false;
      }
      AddKeepsKeys(blocks, dataBlock, index0, pending0, last0, added, entry, lastKey);
      if filter != null {
        filter.AddKey(entry.key.user);
      }
      lastKey := entry.key;
      dataBlock := dataBlock + [entry];
      added := added + [entry];
    }

    /** Writes the data block out. */
    method Flush(size: nat)
      requires Valid()
      modifies this, filter
      ensures Valid() && added == old(added) && dataBlock == []
      ensures if old(dataBlock) == [] then blocks == old(blocks) && handles == old(handles) && offset == old(offset)
              else
                && blocks == old(blocks) + [old(dataBlock)] && handles == old(handles) + [old(offset)]
                && offset == old(offset) + size + 5
    {
      hide KeysOk, Filters.FilterBlockBuilder.Valid;
      if dataBlock == [] {
        return;
      }
      FlushKeepsKeys(blocks, dataBlock, index, pendingIndex, lastKey, added);
      handles := handles + [offset];
      blocks := blocks + [dataBlock];
      offset := offset + size + TRAILER_SIZE;
      dataBlock := [];
      pendingIndex := true;
      if filter != null {
        filter.StartBlock(offset);
      }
    }

    /** The last block, the filter block and the last index key; what was added is a table the lookup is right about, if
        the filter block fits 32 bits. */
    method Finish(size: nat) returns (t: Table)
      requires Valid()
      modifies this, filter
      ensures Flatten(t.blocks) == old(added) && Indexed(t.blocks, t.index)
      ensures (filter != null ==> |filter.result| < TWO32) ==> TableOk(hash, t)
    {
      hide KeysOk, Filters.FilterBlockBuilder.Valid, Filters.MayMatch;
      Flush(size);
      var contents := None;
      if filter != null {
        var bytes := filter.Finish();
        contents := Some(bytes);
      }
      ghost var index0, pending0 := index, pendingIndex;
      var last := lastKey;
      if pendingIndex {
        last := SuccessorKey(lastKey);
        index := index + [last];
        pendingIndex := false;
      }
      FinishedIndex(blocks, index0, pending0, lastKey, added, last);
      t := Table(blocks, index, handles, contents);
    }
  }

  lemma LastIsAdded(blocks: seq<seq<TableEntry>>, data: seq<TableEntry>, index: seq<TableKey>, pending: bool,
                    lastKey: TableKey, added: seq<TableEntry>)
    requires KeysOk(blocks, data, index, pending, lastKey, added)
    ensures pending ==> added != [] && lastKey == added[|added| - 1].key
  {
    if pending {
      LastOfAll(blocks, data);
    }
  }
}
