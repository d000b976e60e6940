/** Block::Iter: parsing forward, stepping back through restart points, and binary search. */
module BlockIterators {
  import opened Basics
  import opened Coding
  import opened Wire
  import opened Blocks

  // ---- facts about a plan ----

  lemma EntrySize(shared: nat, p: Pair)
    requires shared <= |p.key|
    ensures |EncodeEntry(shared, p)| >= 3
    ensures |EncodeEntry(shared, p)| == HeaderSize(shared, p) + |p.key| - shared + |p.value|
  {
  }

  lemma {:induction false} OffsetsGrow(data: seq<byte>, b: Plan, i: nat, j: nat)
    requires LaidOut(data, b) && i < j <= |b.pairs|
    ensures b.offsets[i] < b.offsets[j] <= |data|
    decreases j
  {
    assert EntryOk(data, b, j - 1);
    EntrySize(b.shared[j - 1], b.pairs[j - 1]);
    if i < j - 1 {
      OffsetsGrow(data, b, i, j - 1);
    }
  }

  lemma OffsetOrder(data: seq<byte>, b: Plan, i: nat, j: nat)
    requires LaidOut(data, b) && i <= |b.pairs| && j <= |b.pairs|
    ensures i < j <==> b.offsets[i] < b.offsets[j]
    ensures i == j <==> b.offsets[i] == b.offsets[j]
  {
    if i < j {
      OffsetsGrow(data, b, i, j);
    } else if j < i {
      OffsetsGrow(data, b, j, i);
    }
  }

  /** Entry i decodes to its lengths, and behind them are the rest of its key and its value. */
  lemma EntryDecodes(data: seq<byte>, b: Plan, i: nat)
    requires LaidOut(data, b) && i < |b.pairs|
    ensures b.offsets[i] < b.offsets[i + 1] <= |data| && b.shared[i] <= |b.pairs[i].key|
    ensures var p, shared, at := b.pairs[i], b.shared[i], b.offsets[i];
            var size := HeaderSize(shared, p);
            var keyAt := at + size;
            var valueAt := keyAt + |p.key| - shared;
            && DecodeEntry(data[at..]) == Some(Header(shared, |p.key| - shared, |p.value|, size))
            && keyAt <= valueAt && valueAt + |p.value| == b.offsets[i + 1]
            && data[keyAt..valueAt] == p.key[shared..] && data[valueAt..b.offsets[i + 1]] == p.value
  {
    hide EncodeVarint, DecodeEntry;
    assert EntryOk(data, b, i);
    var p, shared, at, end := b.pairs[i], b.shared[i], b.offsets[i], b.offsets[i + 1];
    EntrySize(shared, p);
    DecodeEncodeEntry(shared, p, data[end..]);
    assert data[at..] == data[at..end] + data[end..];
    EntryParts(shared, p);
    assert data[at..end] == EncodeEntry(shared, p);
    var size := HeaderSize(shared, p);
    assert data[at + size..at + size + |p.key| - shared] == data[at..end][size..size + |p.key| - shared];
    assert data[at + size + |p.key| - shared..end] == data[at..end][size + |p.key| - shared..];
  }

  lemma EntryParts(shared: nat, p: Pair)
    requires shared <= |p.key|
    ensures var size := HeaderSize(shared, p);
            var e := EncodeEntry(shared, p);
            && size + |p.key| - shared + |p.value| == |e|
            && e[size..size + |p.key| - shared] == p.key[shared..] && e[size + |p.key| - shared..] == p.value
  {
    hide EncodeVarint;
  }

  /** An order in which a key before another is before whatever that other is before. */
  ghost predicate Ordered(less: (Key, Key) -> bool, pairs: seq<Pair>) {
    forall i, j, t :: 0 <= i < j < |pairs| && less(pairs[j].key, t) ==> less(pairs[i].key, t)
  }

  class BlockIter {
    const contents: seq<byte>
    const limit: nat
    const num: nat
    const less: (Key, Key) -> bool
    ghost const plan: Plan
    var current: nat
    var restartIndex: nat
    var key: Key
    var valueAt: nat
    var valueSize: nat
    var corrupt: bool
    /** The place among the pairs; their number when there is no current pair. */
    ghost var pos: nat

    ghost predicate Shape()
      reads this
    {
      Holds(contents, limit, plan) && num == |plan.points|
    }

    ghost function Restart(r: nat): nat
      requires Shape() && r < num
      reads this
    {
      plan.offsets[plan.points[r]]
    }

    function NextOffset(): nat
      reads this
    {
      valueAt + valueSize
    }

    ghost predicate Here(i: nat)
      requires Shape() && i < |plan.pairs|
      reads this
    {
      && current == plan.offsets[i] && key == plan.pairs[i].key && NextOffset() == plan.offsets[i + 1] <= |contents|
      && contents[valueAt..NextOffset()] == plan.pairs[i].value
      && restartIndex < num && Restart(restartIndex) <= current
      && (restartIndex + 1 < num ==> current <= Restart(restartIndex + 1))
    }

    ghost predicate Ok()
      reads this
    {
      && Shape() && !corrupt && pos <= |plan.pairs|
      && if pos == |plan.pairs| then current == limit && restartIndex == num else Here(pos)
    }

    /** ParseNextKey will find entry i. */
    ghost predicate Ready(i: nat)
      reads this
    {
      && Shape() && !corrupt && i <= |plan.pairs| && NextOffset() == plan.offsets[i]
      && restartIndex < num && Restart(restartIndex) <= plan.offsets[i]
      && (i < |plan.pairs| ==>
            plan.shared[i] <= |key| && plan.shared[i] <= |plan.pairs[i].key|
            && key[..plan.shared[i]] == plan.pairs[i].key[..plan.shared[i]])
    }

    constructor (contents: seq<byte>, limit: nat, num: nat, less: (Key, Key) -> bool, ghost plan: Plan)
      requires Holds(contents, limit, plan) && num == |plan.points|
      ensures Ok() && pos == |plan.pairs|
      ensures this.contents == contents && this.limit == limit && this.plan == plan && this.less == less
    {
      this.contents, this.limit, this.num, this.less, this.plan := contents, limit, num, less, plan;
      current, restartIndex, key, valueAt, valueSize, corrupt := limit, num, [], 0, 0, false;
      pos := |plan.pairs|;
    }

    predicate Valid()
      reads this
    {
      current < limit
    }

    lemma ValidIsInside()
      requires Ok()
      ensures Valid() <==> pos < |plan.pairs|
    {
      if pos < |plan.pairs| {
        OffsetsGrow(contents[..limit], plan, pos, |plan.pairs|);
      }
    }

    function GetRestartPoint(r: nat): (at: nat)
      requires r < num && limit + 4 * num <= |contents|
      reads this
    {
      WordAt(contents, limit + 4 * r)
    }

    function Value(): (v: seq<byte>)
      requires NextOffset() <= |contents|
      reads this
    {
      contents[valueAt..NextOffset()]
    }

    method SeekToRestartPoint(r: nat)
      requires Shape() && !corrupt && r < num
      modifies this`key, this`restartIndex, this`valueAt, this`valueSize
      ensures Ready(plan.points[r]) && restartIndex == r
    {
      key := [];
      restartIndex := r;
      valueAt, valueSize := GetRestartPoint(r), 0;
      assert PointOk(plan, r);
    }

    /** Marks the iterator corrupt if the flag is set. */
    method CorruptIf(bad: bool)
      modifies this
      ensures bad ==> corrupt && current == limit && restartIndex == num
      ensures !bad ==> unchanged(this)
    {
      if bad {
        current, restartIndex, corrupt, key, valueSize := limit, num, true, [], 0;
      }
    }

    /** Parses the entry at the end of the present one. */
    method ParseNextKey(ghost i: nat) returns (more: bool)
      requires Ready(i)
      modifies this
      ensures Ok() && pos == i && (more <==> i < |plan.pairs|)
    {
      hide DecodeEntry, LaidOut, EncodeEntry;
      ghost var data := contents[..limit];
      AtEnd(data, plan, i);
      current := NextOffset();
      pos := i;
      more := current < limit;
      if !more {
        current, restartIndex := limit, num;
        return;
      }
      EntryDecodes(data, plan, i);
      assert data[current..] == contents[current..limit];
      var h := DecodeEntry(contents[current..limit]);
      var bad := h.None? || |key| < h.value.shared;
      CorruptIf(bad);
      if bad {
        return;
      }
      LoadEntry(h.value, i);
      CatchUp();
    }

    /** Takes the key and the value of the current entry. */
    method LoadEntry(h: Header, ghost i: nat)
      requires Ready(i) && i < |plan.pairs| && current == plan.offsets[i]
      requires h == Header(plan.shared[i], |plan.pairs[i].key| - plan.shared[i], |plan.pairs[i].value|,
                           HeaderSize(plan.shared[i], plan.pairs[i]))
      modifies this`key, this`valueAt, this`valueSize
      ensures key == plan.pairs[i].key && NextOffset() == plan.offsets[i + 1] <= |contents|
      ensures contents[valueAt..NextOffset()] == plan.pairs[i].value
    {
      hide DecodeEntry, EncodeEntry, HeaderSize, EntryOk;
      ghost var data := contents[..limit];
      EntryDecodes(data, plan, i);
      hide LaidOut;
      var keyAt := current + h.size;
      valueAt, valueSize := keyAt + h.nonShared, h.valueLength;
      TakeEntry(data, keyAt, valueAt, h.nonShared, valueSize);
      KeyJoins(plan.pairs[i].key, h.shared);
      key := key[..h.shared] + contents[keyAt..valueAt];
    }

    /** Moves on to the restart run of the current entry. */
    method CatchUp()
      requires Shape() && restartIndex < num && Restart(restartIndex) <= current
      modifies this`restartIndex
      ensures restartIndex < num && Restart(restartIndex) <= current
      ensures restartIndex + 1 < num ==> current <= Restart(restartIndex + 1)
    {
      hide LaidOut;
      while restartIndex + 1 < num && GetRestartPoint(restartIndex + 1) < current
        invariant restartIndex < num && Restart(restartIndex) <= current
      {
        restartIndex := restartIndex + 1;
      }
    }

    lemma TakeEntry(data: seq<byte>, keyAt: nat, valueAt: nat, nonShared: nat, valueSize: nat)
      requires limit <= |contents| && data == contents[..limit] && keyAt + nonShared == valueAt
      requires valueAt + valueSize <= limit
      ensures contents[keyAt..valueAt] == data[keyAt..valueAt]
      ensures contents[valueAt..valueAt + valueSize] == data[valueAt..valueAt + valueSize]
    {
    }

    lemma HereIsReady(i: nat)
      requires Shape() && !corrupt && i < |plan.pairs| && Here(i)
      ensures Ready(i + 1)
    {
      OffsetsGrow(contents[..limit], plan, i, i + 1);
      if i + 1 < |plan.pairs| {
        assert EntryOk(contents[..limit], plan, i + 1);
      }
    }

    method Next()
      requires Ok() && Valid()
      modifies this
      ensures Ok() && pos == old(pos) + 1
    {
      ValidIsInside();
      HereIsReady(pos);
      var more := ParseNextKey(pos + 1);
    }

    method SeekToFirst()
      requires Shape() && !corrupt
      modifies this
      ensures Ok() && pos == 0
    {
      SeekToRestartPoint(0);
      var more := ParseNextKey(0);
    }

    method SeekToLast()
      requires Shape() && !corrupt
      modifies this
      ensures Ok() && pos == if plan.pairs == [] then 0 else |plan.pairs| - 1
    {
      PointsInside(contents[..limit], plan);
      SeekToRestartPoint(num - 1);
      ghost var i := plan.points[num - 1];
      hide LaidOut;
      var more := ParseNextKey(i);
      while more && NextOffset() < limit
        invariant Ok() && pos == i && (more <==> i < |plan.pairs|) && i <= |plan.pairs|
        invariant plan.pairs != [] ==> i < |plan.pairs|
        decreases |plan.pairs| - i
      {
        OffsetOrder(contents[..limit], plan, i + 1, |plan.pairs|);
        HereIsReady(i);
        i := i + 1;
        more := ParseNextKey(i);
      }
      if more {
        OffsetOrder(contents[..limit], plan, i + 1, |plan.pairs|);
      }
    }

    /** Back to the last restart point before the current entry, then forward until an entry ends where it starts. */
    method Prev()
      requires Ok() && Valid()
      modifies this
      ensures Ok() && pos == if old(pos) == 0 then |plan.pairs| else old(pos) - 1
    {
      ValidIsInside();
      ghost var at := pos;
      var original := current;
      var found := RunBefore(at);
      if !found {
        current, restartIndex, pos := limit, num, |plan.pairs|;
        return;
      }
      ghost var i := plan.points[restartIndex];
      SeekToRestartPoint(restartIndex);
      ParseUpTo(original, i, at);
    }

    /** Parses entries from entry i on until one ends where entry at starts. */
    method ParseUpTo(original: nat, ghost i: nat, ghost at: nat)
      requires Ready(i) && i < at < |plan.pairs| && original == plan.offsets[at]
      modifies this
      ensures Ok() && pos == at - 1
    {
      hide LaidOut;
      ghost var k := i;
      var more := ParseNextKey(k);
      while more && NextOffset() < original
        invariant Ok() && pos == k < at && more
        decreases at - k
      {
        NextOrder(k, at);
        HereIsReady(k);
        k := k + 1;
        more := ParseNextKey(k);
      }
      NextOrder(k, at);
    }

    /** Scans back to a restart point before the current entry; there is none before the first entry. */
    method RunBefore(ghost at: nat) returns (found: bool)
      requires Shape() && at < |plan.pairs| && Here(at) && !corrupt
      modifies this`restartIndex
      ensures found <==> at > 0
      ensures found ==> restartIndex < num && plan.points[restartIndex] < at
    {
      hide LaidOut;
      ghost var data := contents[..limit];
      FirstPoint();
      OffsetOrder(data, plan, 0, at);
      while GetRestartPoint(restartIndex) >= current
        invariant restartIndex < num
        decreases restartIndex
      {
        if restartIndex == 0 {
          return false;
        }
        restartIndex := restartIndex - 1;
      }
      OffsetOrder(data, plan, plan.points[restartIndex], at);
      found := true;
    }

    lemma FirstPoint()
      requires Shape()
      ensures num > 0 && plan.points[0] == 0 && plan.offsets[0] == 0
    {
    }

    /** The entry after i starts before entry at, or is entry at. */
    lemma NextOrder(i: nat, at: nat)
      requires Shape() && i < at < |plan.pairs| && Here(i)
      ensures NextOffset() < plan.offsets[at] <==> i + 1 < at
    {
      OffsetOrder(contents[..limit], plan, i + 1, at);
    }

    /** The key at a restart point, which is stored whole. */
    method KeyAt(r: nat) returns (ok: bool, k: Key)
      requires Shape() && 0 < r < num
      ensures ok && plan.points[r] < |plan.pairs| && k == plan.pairs[plan.points[r]].key
    {
      hide DecodeEntry, LaidOut, EncodeEntry;
      ghost var data, m := contents[..limit], plan.points[r];
      PointHasEntry(r);
      EntryDecodes(data, plan, m);
      var region := GetRestartPoint(r);
      assert data[region..] == contents[region..limit];
      var h := DecodeEntry(contents[region..limit]);
      ok := h.Some? && h.value.shared == 0;
      TakeEntry(data, region + h.value.size, region + h.value.size + h.value.nonShared, h.value.nonShared, 0);
      k := contents[region + h.value.size..region + h.value.size + h.value.nonShared];
      assert plan.pairs[m].key[0..] == plan.pairs[m].key;
    }

    /** Restart point r starts with an entry whose key is before the target. */
    ghost predicate PointBefore(r: nat, target: Key)
      requires Shape() && r < num
      reads this
    {
      plan.points[r] < |plan.pairs| && less(plan.pairs[plan.points[r]].key, target)
    }

    /** Binary search for the last restart point with a key before the target. */
    method SearchRestarts(target: Key) returns (ok: bool, left: nat)
      requires Shape() && !corrupt
      ensures ok && left < num && (left > 0 ==> PointBefore(left, target))
    {
      hide Holds, LaidOut, Restarts;
      NonEmpty();
      left := 0;
      var right := num - 1;
      while left < right
        invariant left <= right < num && (left > 0 ==> PointBefore(left, target))
        decreases right - left
      {
        var mid := (left + right + 1) / 2;
        var midKey: Key;
        ok, midKey := KeyAt(mid);
        if !ok {
          return;
        }
        if less(midKey, target) {
          left := mid;
        } else {
          right := mid - 1;
        }
      }
      ok := true;
    }

    lemma NonEmpty()
      requires Shape()
      ensures num > 0
    {
    }

    /** Moves to the first pair whose key is not before the target. */
    method Seek(target: Key)
      requires Shape() && !corrupt && Ordered(less, plan.pairs)
      modifies this
      ensures Ok() && forall i :: 0 <= i < |plan.pairs| ==> (i < pos <==> less(plan.pairs[i].key, target))
    {
      hide Holds, LaidOut, Ordered, BlockIter.Here;
      var ok, left := SearchRestarts(target);
      CorruptIf(!ok);
      if !ok {
        return;
      }
      ghost var i := StartOfSearch(left, target);
      SeekToRestartPoint(left);
      var more := ParseNextKey(i);
      while more && less(key, target)
        invariant Ok() && pos == i && (more <==> i < |plan.pairs|) && i <= |plan.pairs|
        invariant forall j :: 0 <= j < i ==> less(plan.pairs[j].key, target)
        decreases |plan.pairs| - i
      {
        KeyIsHere(i);
        HereIsReady(i);
        i := i + 1;
        more := ParseNextKey(i);
      }
      SearchEnds(i, target);
    }

    /** All pairs before the restart point found are before the target. */
    lemma StartOfSearch(left: nat, target: Key) returns (i: nat)
      requires Shape() && left < num && (left > 0 ==> PointBefore(left, target)) && Ordered(less, plan.pairs)
      ensures i == plan.points[left] <= |plan.pairs|
      ensures forall j :: 0 <= j < i ==> less(plan.pairs[j].key, target)
    {
      PointsInside(contents[..limit], plan);
      i := plan.points[left];
    }

    lemma KeyIsHere(i: nat)
      requires Shape() && i < |plan.pairs| && Here(i)
      ensures key == plan.pairs[i].key && NextOffset() <= |contents| && Value() == plan.pairs[i].value
    {
    }

    lemma SearchEnds(i: nat, target: Key)
      requires Ok() && pos == i && Ordered(less, plan.pairs) && (i < |plan.pairs| ==> !less(key, target))
      requires forall j :: 0 <= j < i ==> less(plan.pairs[j].key, target)
      ensures forall j :: 0 <= j < |plan.pairs| ==> (j < i <==> less(plan.pairs[j].key, target))
    {
    }

    /** A restart point that is not the only one is an entry that shares nothing. */
    lemma PointHasEntry(r: nat)
      requires Shape() && 0 < r < num
      ensures plan.points[r] < |plan.pairs| && plan.shared[plan.points[r]] == 0
    {
      assert PointOk(plan, r) && PointOk(plan, 0);
    }

    /** Iterating forward gives back exactly the pairs the block was built from. */
    method ReadAll() returns (all: seq<Pair>)
      requires Ok()
      modifies this
      ensures Ok() && all == plan.pairs
    {
      hide Holds, LaidOut, BlockIter.Here;
      all := [];
      SeekToFirst();
      ValidIsInside();
      while Valid()
        invariant Ok() && (Valid() <==> pos < |plan.pairs|) && all == plan.pairs[..pos]
        decreases |plan.pairs| - pos
      {
        KeyIsHere(pos);
        all := all + [Pair(key, Value())];
        Next();
        ValidIsInside();
      }
    }
  }

  lemma KeyJoins(key: Key, shared: nat)
    requires shared <= |key|
    ensures key[..shared] + key[shared..] == key
  {
  }

  /** The data ends where the entries do. */
  lemma AtEnd(data: seq<byte>, b: Plan, i: nat)
    requires LaidOut(data, b) && i <= |b.pairs|
    ensures b.offsets[i] < |data| <==> i < |b.pairs|
    ensures b.offsets[i] <= |data|
  {
    OffsetOrder(data, b, i, |b.pairs|);
  }
}
