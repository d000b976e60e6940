/** MergingIterator: several cursors behave as one cursor over the sorted union. */
module Merging {
  import opened Basics
  import opened InternalKeys
  import opened Cursors

  /** merged is the sorted union of sorted lists that share no entry. */
  ghost predicate IsMerge(lists: seq<seq<Entry>>, merged: seq<Entry>) {
    && SortedEntries(merged)
    && (forall i :: 0 <= i < |lists| ==> SortedEntries(lists[i]))
    && (forall i, e :: 0 <= i < |lists| && e in lists[i] ==> e in merged)
    && (forall e :: e in merged ==> exists i :: 0 <= i < |lists| && e in lists[i])
    && (forall i, k, e :: 0 <= i < |lists| && 0 <= k < |lists| && e in lists[i] && e in lists[k] ==> i == k)
  }

  /** Position c splits the list where position q splits the union. */
  ghost predicate Splits(list: seq<Entry>, merged: seq<Entry>, c: nat, q: nat) {
    && c <= |list| && q <= |merged|
    && (q == |merged| ==> c == |list|)
    && (q < |merged| ==> forall j :: 0 <= j < |list| ==> (j < c <==> Precedes(list[j].key, merged[q].key)))
  }

  /** A list contained in the union. */
  ghost predicate Part(list: seq<Entry>, merged: seq<Entry>) {
    SortedEntries(list) && SortedEntries(merged) && forall e :: e in list ==> e in merged
  }

  /** Moving the split past the union's entry q moves it past that entry in the list that owns it, and not at all
      in the others. */
  lemma SplitStep(list: seq<Entry>, merged: seq<Entry>, c: nat, q: nat)
    requires Part(list, merged) && q < |merged|
    ensures Splits(list, merged, c, q) && merged[q] in list ==> c < |list| && list[c] == merged[q]
    ensures merged[q] in list ==> (Splits(list, merged, c, q) <==> Splits(list, merged, c + 1, q + 1))
    ensures merged[q] !in list ==> (Splits(list, merged, c, q) <==> Splits(list, merged, c, q + 1))
  {
    forall j | 0 <= j < |list|
      ensures (Precedes(list[j].key, merged[q].key) || list[j] == merged[q])
              <==> (q + 1 == |merged| || Precedes(list[j].key, merged[q + 1].key))
    {
      assert list[j] in list;
      var p :| 0 <= p < |merged| && merged[p] == list[j];
    }
    if merged[q] in list {
      var o :| 0 <= o < |list| && list[o] == merged[q];
      assert forall j :: 0 <= j < |list| ==> (Precedes(list[j].key, merged[q].key) <==> j < o);
      assert forall j :: 0 <= j < |list| ==> (list[j] == merged[q] <==> j == o) by {
        forall j | 0 <= j < |list| && j != o
          ensures list[j] != list[o]
        {
          assert !Precedes(list[o].key, list[o].key);
        }
      }
      SplitPoint(list, merged, o, c, q);
      SplitPoint(list, merged, o + 1, c + 1, q + 1);
    }
  }

  /** A list has exactly one split for a place in the union. */
  lemma SplitPoint(list: seq<Entry>, merged: seq<Entry>, o: nat, c: nat, q: nat)
    requires o <= |list| && q <= |merged|
    requires forall j :: 0 <= j < |list| ==> (j < o <==> q == |merged| || Precedes(list[j].key, merged[q].key))
    ensures Splits(list, merged, c, q) <==> c == o
  {
    if c < |list| {
      var e := list[c];
    }
    if o < |list| {
      var e := list[o];
    }
  }

  /** At a split, whatever a list has left is at or past the union's entry q. */
  lemma SplitLeft(list: seq<Entry>, merged: seq<Entry>, c: nat, q: nat)
    requires Part(list, merged) && Splits(list, merged, c, q) && c < |list|
    ensures q < |merged| && (list[c] == merged[q] || Precedes(merged[q].key, list[c].key))
  {
    assert list[c] in list;
    var p :| 0 <= p < |merged| && merged[p] == list[c];
  }

  /** At a split, whatever a list has behind it is before the union's entry q. */
  lemma SplitBehind(list: seq<Entry>, merged: seq<Entry>, c: nat, q: nat)
    requires Part(list, merged) && Splits(list, merged, c, q) && 0 < c
    ensures q > 0 && (list[c - 1] == merged[q - 1] || Precedes(list[c - 1].key, merged[q - 1].key))
  {
    assert list[c - 1] in list;
    var p :| 0 <= p < |merged| && merged[p] == list[c - 1];
  }

  /** Seeking the list and the union to one target gives a split. */
  lemma SeekSplits(list: seq<Entry>, merged: seq<Entry>, c: nat, q: nat, target: InternalKey)
    requires Part(list, merged) && c <= |list| && q <= |merged|
    requires forall j :: 0 <= j < |list| ==> (j < c <==> Less(list[j].key, target))
    requires forall p :: 0 <= p < |merged| ==> (p < q <==> Less(merged[p].key, target))
    ensures Splits(list, merged, c, q)
  {
    forall j | 0 <= j < |list|
      ensures j < c <==> q == |merged| || Precedes(list[j].key, merged[q].key)
    {
      assert list[j] in list;
      var p :| 0 <= p < |merged| && merged[p] == list[j];
    }
    if c < |list| {
      assert list[c] in list;
    }
  }

  /** Where a cursor that moves backward stands when c entries are behind or under it. */
  function BackPos(list: seq<Entry>, c: nat): nat {
    if c == 0 then |list| else c - 1
  }

  ghost predicate BackSplits(list: seq<Entry>, merged: seq<Entry>, pos: nat, q: nat) {
    exists c: nat :: Splits(list, merged, c, q) && pos == BackPos(list, c)
  }

  datatype Direction = Forward | Reverse

  class MergingIterator {
    const children: seq<Cursor>
    ghost const merged: seq<Entry>
    var current: Option<nat>
    var direction: Direction
    /** The place in the union; its length when there is no current entry. */
    ghost var at: nat

    constructor (children: seq<Cursor>, ghost merged: seq<Entry>)
      requires forall i, j :: 0 <= i < j < |children| ==> children[i] != children[j]
      requires forall i :: 0 <= i < |children| ==> children[i].Ok()
      requires IsMerge(seq(|children|, i requires 0 <= i < |children| => children[i].entries), merged)
      ensures Ok() && this.children == children && this.merged == merged && current == None
    {
      this.children := children;
      this.merged := merged;
      current := None;
      direction := Forward;
      at := |merged|;
    }

    ghost predicate Shape()
      reads this, children
    {
      && (forall i, j :: 0 <= i < j < |children| ==> children[i] != children[j])
      && IsMerge(seq(|children|, i requires 0 <= i < |children| => children[i].entries), merged)
      && forall i :: 0 <= i < |children| ==> children[i].Ok()
    }

    ghost predicate ForwardAt(q: nat)
      reads this, children
    {
      forall i :: 0 <= i < |children| ==> Splits(children[i].entries, merged, children[i].pos, q)
    }

    ghost predicate BackwardAt(q: nat)
      reads this, children
    {
      forall i :: 0 <= i < |children| ==> BackSplits(children[i].entries, merged, children[i].pos, q)
    }

    ghost predicate Ok()
      reads this, children
    {
      && Shape() && at <= |merged|
      && (current.None? <==> at == |merged|)
      && (current.Some? ==>
            && current.value < |children| && children[current.value].Valid()
            && children[current.value].Current() == merged[at]
            && (if direction == Forward then ForwardAt(at) else BackwardAt(at + 1)))
    }

    lemma ChildPart(i: nat)
      requires Shape() && i < |children|
      ensures Part(children[i].entries, merged)
    {
      var lists := seq(|children|, i requires 0 <= i < |children| => children[i].entries);
      assert lists[i] == children[i].entries;
    }

    lemma OwnerOf(q: nat) returns (o: nat)
      requires Shape() && q < |merged|
      ensures o < |children| && merged[q] in children[o].entries
      ensures forall i :: 0 <= i < |children| && merged[q] in children[i].entries ==> i == o
    {
      var lists := seq(|children|, i requires 0 <= i < |children| => children[i].entries);
      assert merged[q] in merged;
      var k :| 0 <= k < |lists| && merged[q] in lists[k];
      o := k;
      forall i | 0 <= i < |children| && merged[q] in children[i].entries
        ensures i == o
      {
        assert merged[q] in lists[i];
      }
    }

    /** The valid child with the smallest key is the owner of the union's next entry. */
    method FindSmallest(ghost q: nat)
      requires Shape() && q <= |merged| && ForwardAt(q)
      modifies this`current, this`at
      ensures at == q && (current.None? <==> q == |merged|)
      ensures current.Some? ==> current.value < |children| && children[current.value].Valid()
      ensures current.Some? ==> children[current.value].Current() == merged[q]
    {
      var smallest: Option<nat> := None;
      for i := 0 to |children|
        invariant smallest.Some? ==> smallest.value < |children| && children[smallest.value].Valid()
        invariant forall k :: 0 <= k < i && children[k].Valid() ==>
                    smallest.Some? && !Less(children[k].Current().key, children[smallest.value].Current().key)
      {
        if children[i].Valid() {
          if smallest.None? || Less(children[i].Current().key, children[smallest.value].Current().key) {
            smallest := Some(i);
          }
        }
      }
      SmallestIsNext(q, smallest);
      current := smallest;
      at := q;
    }

    lemma SmallestIsNext(q: nat, smallest: Option<nat>)
      requires Shape() && q <= |merged| && ForwardAt(q)
      requires smallest.Some? ==> smallest.value < |children| && children[smallest.value].Valid()
      requires forall k :: 0 <= k < |children| && children[k].Valid() ==>
                 smallest.Some? && !Less(children[k].Current().key, children[smallest.value].Current().key)
      ensures smallest.Some? <==> q < |merged|
      ensures smallest.Some? ==> children[smallest.value].Current() == merged[q]
    {
      if smallest.Some? {
        ChildPart(smallest.value);
        SplitLeft(children[smallest.value].entries, merged, children[smallest.value].pos, q);
      }
      if q < |merged| {
        var o := OwnerOf(q);
        ChildPart(o);
        SplitStep(children[o].entries, merged, children[o].pos, q);
      }
    }

    /** The valid child with the largest key is the owner of the union's previous entry. */
    method FindLargest(ghost q: nat)
      requires Shape() && q <= |merged| && BackwardAt(q)
      modifies this`current, this`at
      ensures at == (if q == 0 then |merged| else q - 1) && (current.None? <==> q == 0)
      ensures current.Some? ==> current.value < |children| && children[current.value].Valid()
      ensures current.Some? ==> children[current.value].Current() == merged[q - 1]
    {
      var largest: Option<nat> := None;
      var i := |children|;
      while i > 0
        invariant 0 <= i <= |children|
        invariant largest.Some? ==> largest.value < |children| && children[largest.value].Valid()
        invariant forall k :: i <= k < |children| && children[k].Valid() ==>
                    largest.Some? && !Less(children[largest.value].Current().key, children[k].Current().key)
      {
        i := i - 1;
        if children[i].Valid() {
          if largest.None? || Less(children[largest.value].Current().key, children[i].Current().key) {
            largest := Some(i);
          }
        }
      }
      LargestIsPrevious(q, largest);
      current := largest;
      at := if q == 0 then |merged| else q - 1;
    }

    lemma LargestIsPrevious(q: nat, largest: Option<nat>)
      requires Shape() && q <= |merged| && BackwardAt(q)
      requires largest.Some? ==> largest.value < |children| && children[largest.value].Valid()
      requires forall k :: 0 <= k < |children| && children[k].Valid() ==>
                 largest.Some? && !Less(children[largest.value].Current().key, children[k].Current().key)
      ensures largest.Some? <==> q > 0
      ensures largest.Some? ==> children[largest.value].Current() == merged[q - 1]
    {
      if largest.Some? {
        ChildPart(largest.value);
        var c: nat :| Splits(children[largest.value].entries, merged, c, q)
                      && children[largest.value].pos == BackPos(children[largest.value].entries, c);
        SplitBehind(children[largest.value].entries, merged, c, q);
      }
      if q > 0 {
        var o := OwnerOf(q - 1);
        ChildPart(o);
        var c: nat :| Splits(children[o].entries, merged, c, q) && children[o].pos == BackPos(children[o].entries, c);
        OwnerBehind(children[o].entries, merged, c, q);
      }
    }

    method SeekToFirst()
      requires Shape()
      modifies this, children
      ensures Ok() && at == 0
    {
      for i := 0 to |children|
        invariant Shape()
        invariant forall k :: 0 <= k < i ==> children[k].pos == 0
      {
        children[i].SeekToFirst();
      }
      forall i | 0 <= i < |children|
        ensures Splits(children[i].entries, merged, children[i].pos, 0)
      {
        ChildPart(i);
        SplitAtFront(children[i].entries, merged);
      }
      FindSmallest(0);
      direction := Forward;
    }

    method SeekToLast()
      requires Shape()
      modifies this, children
      ensures Ok() && at == if merged == [] then 0 else |merged| - 1
    {
      for i := 0 to |children|
        invariant Shape()
        invariant forall k :: 0 <= k < i ==> children[k].pos == BackPos(children[k].entries, |children[k].entries|)
      {
        children[i].SeekToLast();
      }
      forall i | 0 <= i < |children|
        ensures BackSplits(children[i].entries, merged, children[i].pos, |merged|)
      {
        assert Splits(children[i].entries, merged, |children[i].entries|, |merged|);
      }
      FindLargest(|merged|);
      direction := Reverse;
    }

    /** Moves to the union's first entry at or after the target. */
    method Seek(target: InternalKey)
      requires Shape()
      modifies this, children
      ensures Ok() && forall p :: 0 <= p < |merged| ==> (p < at <==> Less(merged[p].key, target))
    {
      for i := 0 to |children|
        invariant Shape()
        invariant forall k :: 0 <= k < i ==> SoughtTo(children[k].entries, children[k].pos, target)
      {
        children[i].Seek(target);
        SeekIsRank(children[i].entries, children[i].pos, target);
      }
      ghost var q := Rank(merged, target);
      forall i | 0 <= i < |children|
        ensures Splits(children[i].entries, merged, children[i].pos, q)
      {
        ChildPart(i);
        SeekSplits(children[i].entries, merged, children[i].pos, q, target);
      }
      FindSmallest(q);
      direction := Forward;
    }

    /** The current child is the one that owns the union's current entry. */
    lemma CurrentIsOwner(o: nat)
      requires Shape() && at < |merged| && o < |children| && merged[at] in children[o].entries
      requires current.Some? && current.value < |children| && children[current.value].Valid()
      requires children[current.value].Current() == merged[at]
      ensures current.value == o
    {
      var lists := seq(|children|, i requires 0 <= i < |children| => children[i].entries);
      var c := current.value;
      assert children[c].Current() in children[c].entries;
      assert merged[at] in lists[c] && merged[at] in lists[o];
    }

    /** Every child but the current one seeks the current key. */
    method TurnForward()
      requires Ok() && current.Some? && direction == Reverse
      modifies children
      ensures Shape() && ForwardAt(at) && children[current.value].Valid()
      ensures children[current.value].Current() == merged[at]
    {
      hide Splits, IsMerge, Part, SortedEntries;
      ghost var cur := current.value;
      var key := children[current.value].Current().key;
      for i := 0 to |children|
        invariant Shape()
        invariant children[cur].pos == old(children[cur].pos)
        invariant forall k :: 0 <= k < i && k != cur ==> Splits(children[k].entries, merged, children[k].pos, at)
      {
        if i != current.value {
          var child := children[i];
          child.Seek(key);
          ghost var c := child.pos;
          if child.Valid() && !Less(key, child.Current().key) && !Less(child.Current().key, key) {
            child.Next();
          }
          SeekIsRank(child.entries, c, key);
          OthersSkip(i, c, key);
        }
      }
      CurrentSplits(cur);
    }

    /** Every child but the current one seeks the current key and steps back, or goes to its end. */
    method TurnBackward()
      requires Ok() && current.Some? && direction == Forward
      modifies children
      ensures Shape() && BackwardAt(at + 1) && children[current.value].Valid()
      ensures children[current.value].Current() == merged[at]
    {
      hide Splits, IsMerge, Part, SortedEntries;
      ghost var cur := current.value;
      var key := children[current.value].Current().key;
      for i := 0 to |children|
        invariant Shape()
        invariant children[cur].pos == old(children[cur].pos)
        invariant forall k :: 0 <= k < i && k != cur ==>
                  BackSplits(children[k].entries, merged, children[k].pos, at + 1)
      {
        if i != current.value {
          var child := children[i];
          child.Seek(key);
          SeekIsRank(child.entries, child.pos, key);
          OthersSkip(i, child.pos, key);
          ghost var c := child.pos;
          assert Splits(child.entries, merged, c, at + 1);
          if child.Valid() {
            child.Prev();
          } else {
            child.SeekToLast();
          }
          assert child.pos == BackPos(child.entries, c);
        }
      }
      CurrentSplits(cur);
      assert Splits(children[cur].entries, merged, children[cur].pos + 1, at + 1);
    }

    /** A child that does not own the current entry, sought to its key, is split at it and past it. */
    lemma OthersSkip(i: nat, pos: nat, key: InternalKey)
      requires Shape() && at < |merged| && key == merged[at].key && i < |children|
      requires current.Some? && current.value < |children| && i != current.value
      requires children[current.value].Valid() && children[current.value].Current() == merged[at]
      requires SoughtTo(children[i].entries, pos, key)
      ensures Splits(children[i].entries, merged, pos, at) && Splits(children[i].entries, merged, pos, at + 1)
      ensures pos < |children[i].entries| ==> Less(key, children[i].entries[pos].key)
    {
      ChildPart(i);
      var o := OwnerOf(at);
      CurrentIsOwner(o);
      KeyIsRank(merged, at);
      SeekSplits(children[i].entries, merged, pos, at, key);
      SplitStep(children[i].entries, merged, pos, at);
      if pos < |children[i].entries| {
        SplitLeft(children[i].entries, merged, pos, at);
        assert children[i].entries[pos] in children[i].entries;
      }
    }

    /** The current child, standing at the union's current entry, is split there. */
    lemma CurrentSplits(cur: nat)
      requires Shape() && at < |merged| && cur < |children| && children[cur].Valid()
      requires children[cur].Current() == merged[at]
      ensures Splits(children[cur].entries, merged, children[cur].pos, at)
      ensures Splits(children[cur].entries, merged, children[cur].pos + 1, at + 1)
    {
      ChildPart(cur);
      var list, pos := children[cur].entries, children[cur].pos;
      assert merged[at] == list[pos];
      assert Splits(list, merged, pos, at);
      SplitStep(list, merged, pos, at);
    }

    /** One step forward in the union; a reversed iterator first puts every other child past the current key. */
    method Next()
      requires Ok() && current.Some?
      modifies this, children
      ensures Ok() && at == old(at) + 1
    {
      hide Splits, IsMerge, SortedEntries;
      if direction != Forward {
        TurnForward();
        direction := Forward;
      }
      StepForward();
      FindSmallest(at + 1);
    }

    method StepForward()
      requires Shape() && at < |merged| && ForwardAt(at)
      requires current.Some? && current.value < |children| && children[current.value].Valid()
      requires children[current.value].Current() == merged[at]
      modifies children[current.value]
      ensures Shape() && ForwardAt(at + 1)
    {
      hide Splits, IsMerge, Part;
      ghost var o := OwnerOf(at);
      CurrentIsOwner(o);
      children[current.value].Next();
      forall i | 0 <= i < |children|
        ensures Splits(children[i].entries, merged, children[i].pos, at + 1)
      {
        ChildPart(i);
        SplitStep(children[i].entries, merged, if i == o then children[i].pos - 1 else children[i].pos, at);
      }
    }

    /** One step backward in the union; a forward iterator first puts every other child before the current key. */
    method Prev()
      requires Ok() && current.Some?
      modifies this, children
      ensures Ok() && at == if old(at) == 0 then |merged| else old(at) - 1
    {
      hide Splits, BackSplits, IsMerge, SortedEntries;
      if direction != Reverse {
        TurnBackward();
        direction := Reverse;
      }
      StepBack();
      FindLargest(at);
    }

    method StepBack()
      requires Shape() && at < |merged| && BackwardAt(at + 1)
      requires current.Some? && current.value < |children| && children[current.value].Valid()
      requires children[current.value].Current() == merged[at]
      modifies children[current.value]
      ensures Shape() && BackwardAt(at)
    {
      ghost var o := OwnerOf(at);
      CurrentIsOwner(o);
      children[current.value].Prev();
      forall i | 0 <= i < |children|
        ensures BackSplits(children[i].entries, merged, children[i].pos, at)
      {
        ChildPart(i);
        if i == o {
          BackStepOwner(children[i].entries, merged, old(children[i].pos), children[i].pos, at);
        } else {
          BackStepOther(children[i].entries, merged, children[i].pos, at);
        }
      }
    }
  }

  /** pos is the number of entries before the target. */
  ghost predicate SoughtTo(list: seq<Entry>, pos: nat, target: InternalKey) {
    pos <= |list| && forall j :: 0 <= j < |list| ==> (j < pos <==> Less(list[j].key, target))
  }

  lemma SeekIsRank(list: seq<Entry>, pos: nat, target: InternalKey)
    requires SortedEntries(list) && pos <= |list|
    requires forall j :: 0 <= j < pos ==> Less(list[j].key, target)
    requires pos < |list| ==> !Less(list[pos].key, target)
    ensures SoughtTo(list, pos, target)
  {
    forall j | pos <= j < |list|
      ensures !Less(list[j].key, target)
    {
      assert pos < j ==> Precedes(list[pos].key, list[j].key);
    }
  }

  ghost function Rank(list: seq<Entry>, target: InternalKey): (q: nat)
    requires SortedEntries(list)
    ensures SoughtTo(list, q, target)
  {
    if list == [] then 0
    else
      var n := |list| - 1;
      var q := Rank(list[..n], target);
      assert forall j :: 0 <= j < n ==> list[..n][j] == list[j];
      if q == n && Less(list[n].key, target) then n + 1
      else
        assert q < n ==> Precedes(list[q].key, list[n].key);
        q
  }

  lemma SplitAtFront(list: seq<Entry>, merged: seq<Entry>)
    requires Part(list, merged)
    ensures Splits(list, merged, 0, 0)
  {
    forall j | 0 <= j < |list|
      ensures merged != [] && !Precedes(list[j].key, merged[0].key)
    {
      assert list[j] in list;
      var p :| 0 <= p < |merged| && merged[p] == list[j];
    }
    if list != [] {
      assert list[0] in list;
    }
  }

  lemma OwnerBehind(list: seq<Entry>, merged: seq<Entry>, c: nat, q: nat)
    requires Part(list, merged) && 0 < q <= |merged| && Splits(list, merged, c, q) && merged[q - 1] in list
    ensures 0 < c && list[c - 1] == merged[q - 1]
  {
    var o :| 0 <= o < |list| && list[o] == merged[q - 1];
    SplitBehindOwner(list, merged, c, q, o);
    SplitStep(list, merged, c - 1, q - 1);
  }

  lemma SplitBehindOwner(list: seq<Entry>, merged: seq<Entry>, c: nat, q: nat, o: nat)
    requires Part(list, merged) && 0 < q <= |merged| && Splits(list, merged, c, q)
    requires o < |list| && list[o] == merged[q - 1]
    ensures o < c
  {
  }

  lemma KeyIsRank(merged: seq<Entry>, q: nat)
    requires SortedEntries(merged) && q < |merged|
    ensures SoughtTo(merged, q, merged[q].key)
  {
    forall p | 0 <= p < |merged|
      ensures p < q <==> Less(merged[p].key, merged[q].key)
    {
      assert p < q ==> Precedes(merged[p].key, merged[q].key);
      assert q < p ==> Precedes(merged[q].key, merged[p].key);
    }
  }

  /** The owner of entry q steps back over it. */
  lemma BackStepOwner(list: seq<Entry>, merged: seq<Entry>, before: nat, after: nat, q: nat)
    requires Part(list, merged) && q < |merged| && BackSplits(list, merged, before, q + 1)
    requires before < |list| && list[before] == merged[q] && after == if before == 0 then |list| else before - 1
    ensures BackSplits(list, merged, after, q)
  {
    var c: nat :| Splits(list, merged, c, q + 1) && before == BackPos(list, c);
    OwnerBehind(list, merged, c, q + 1);
    SplitStep(list, merged, c - 1, q);
    assert Splits(list, merged, c - 1, q) && after == BackPos(list, c - 1);
  }

  lemma BackStepOther(list: seq<Entry>, merged: seq<Entry>, pos: nat, q: nat)
    requires Part(list, merged) && q < |merged| && BackSplits(list, merged, pos, q + 1) && merged[q] !in list
    ensures BackSplits(list, merged, pos, q)
  {
    var c: nat :| Splits(list, merged, c, q + 1) && pos == BackPos(list, c);
    SplitStep(list, merged, c, q);
  }
}
