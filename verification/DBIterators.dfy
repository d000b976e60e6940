/** DBIter: one entry per live user key of a snapshot, over a cursor on all internal entries. */
module DBIterators {
  import opened Basics
  import opened InternalKeys
  import opened Cursors

  /** Entry i is the newest its user key has at or below the snapshot. */
  ghost predicate NewestOfKey(es: seq<Entry>, s: nat, i: nat) {
    && i < |es| && es[i].key.sequence <= s
    && forall j :: 0 <= j < i && es[j].key.user == es[i].key.user ==> es[j].key.sequence > s
  }

  /** Entry i is what the iterator shows for its user key. */
  ghost predicate Shown(es: seq<Entry>, s: nat, i: nat) {
    NewestOfKey(es, s, i) && es[i].key.kind.Value?
  }

  /** Shown entries are exactly the live keys of the snapshot with the values a read returns. */
  lemma ShownIsSnapshot(es: seq<Entry>, s: nat, u: UserKey)
    requires SortedEntries(es)
    ensures Read(EntrySet(es), u, s) == NotFound <==> forall i: nat :: Shown(es, s, i) ==> es[i].key.user != u
    ensures forall i: nat :: Shown(es, s, i) && es[i].key.user == u ==> Read(EntrySet(es), u, s) == Found(es[i].val)
  {
    SortedDistinct(es);
    forall i: nat | NewestOfKey(es, s, i) && es[i].key.user == u
      ensures Read(EntrySet(es), u, s) == Outcome(es[i])
    {
      NewestIsNewest(es, s, i);
      ReadIsNewest(EntrySet(es), u, s, es[i]);
    }
    var e := ReadCases(EntrySet(es), u, s);
    if e.Some? {
      var i: nat :| i < |es| && es[i] == e.value;
      forall j | 0 <= j < i && es[j].key.user == u
        ensures es[j].key.sequence > s
      {
        assert Precedes(es[j].key, es[i].key);
        assert es[j] in EntrySet(es);
      }
      assert NewestOfKey(es, s, i);
    }
  }

  lemma NewestIsNewest(es: seq<Entry>, s: nat, i: nat)
    requires SortedEntries(es) && NewestOfKey(es, s, i)
    ensures Newest(EntrySet(es), es[i].key.user, s, es[i])
  {
    forall x | x in es && Visible(x, es[i].key.user, s)
      ensures x.key.sequence <= es[i].key.sequence
    {
      var j :| 0 <= j < |es| && es[j] == x;
      assert i < j ==> Precedes(es[i].key, es[j].key);
    }
  }

  /** Shown entries come in strictly ascending user-key order, one per key. */
  lemma ShownAscending(es: seq<Entry>, s: nat, i: nat, j: nat)
    requires SortedEntries(es) && Shown(es, s, i) && Shown(es, s, j) && i < j
    ensures es[i].key.user < es[j].key.user
  {
    assert Precedes(es[i].key, es[j].key);
  }

  predicate Above(low: Option<UserKey>, u: UserKey) {
    low.Some? ==> low.value < u
  }

  /** p is the first shown entry from start on whose key lies above low; None if there is no such entry. */
  ghost predicate FirstShown(es: seq<Entry>, s: nat, start: nat, low: Option<UserKey>, p: Option<nat>) {
    && (p.Some? ==> start <= p.value && Shown(es, s, p.value) && Above(low, es[p.value].key.user))
    && forall j: nat :: start <= j && Shown(es, s, j) && Above(low, es[j].key.user) ==> p.Some? && p.value <= j
  }

  /** p is the last shown entry before end; None if there is no such entry. */
  ghost predicate LastShown(es: seq<Entry>, s: nat, end: nat, p: Option<nat>) {
    && (p.Some? ==> p.value < end && Shown(es, s, p.value))
    && forall j: nat :: j < end && Shown(es, s, j) ==> p.Some? && j <= p.value
  }

  // ---- scanning forward ----

  /** An entry before i has this user key and is visible. */
  ghost predicate SeenBefore(es: seq<Entry>, s: nat, i: nat, u: UserKey) {
    exists k :: 0 <= k < i && k < |es| && es[k].key.user == u && es[k].key.sequence <= s
  }

  /** Of the visible entries from i on, the skip key covers exactly those whose key was seen before i or does not
      lie above low. */
  ghost predicate Blocks(es: seq<Entry>, s: nat, i: nat, low: Option<UserKey>, skipping: bool, skip: UserKey) {
    forall j :: i <= j < |es| && es[j].key.sequence <= s ==>
      && (low.Some? ==> low.value <= es[j].key.user)
      && (skipping && es[j].key.user <= skip <==> !Above(low, es[j].key.user) || SeenBefore(es, s, i, es[j].key.user))
  }

  lemma SeenGrows(es: seq<Entry>, s: nat, i: nat, u: UserKey)
    requires i < |es|
    ensures SeenBefore(es, s, i + 1, u) <==> SeenBefore(es, s, i, u) || (es[i].key.user == u && es[i].key.sequence <= s)
  {
  }

  lemma BlocksStep(es: seq<Entry>, s: nat, i: nat, low: Option<UserKey>, skipping: bool, skip: UserKey)
    requires SortedEntries(es) && i < |es| && Blocks(es, s, i, low, skipping, skip)
    ensures es[i].key.sequence > s || (es[i].key.kind.Value? && skipping && es[i].key.user <= skip)
            ==> Blocks(es, s, i + 1, low, skipping, skip)
    ensures es[i].key.sequence <= s && es[i].key.kind.Deletion? ==> Blocks(es, s, i + 1, low, true, es[i].key.user)
    ensures es[i].key.sequence <= s && es[i].key.kind.Value? && !(skipping && es[i].key.user <= skip)
            ==> Shown(es, s, i) && Above(low, es[i].key.user)
    ensures es[i].key.sequence > s || es[i].key.kind.Deletion? || (skipping && es[i].key.user <= skip)
            ==> !(Shown(es, s, i) && Above(low, es[i].key.user))
  {
    forall j | i < j < |es|
      ensures SeenBefore(es, s, i + 1, es[j].key.user) <==>
                SeenBefore(es, s, i, es[j].key.user) || (es[i].key.user == es[j].key.user && es[i].key.sequence <= s)
      ensures es[i].key.user <= es[j].key.user
      ensures es[i].key.user < es[j].key.user ==> !SeenBefore(es, s, i, es[j].key.user)
    {
      SeenGrows(es, s, i, es[j].key.user);
      assert Precedes(es[i].key, es[j].key);
      forall k | 0 <= k < i
        ensures es[k].key.user <= es[i].key.user
      {
        assert Precedes(es[k].key, es[i].key);
      }
    }
  }

  // ---- scanning backward ----

  /** Entry m is the last one a backward scan from before end down to (not including) i has found visible, if any. */
  ghost predicate LastVisible(es: seq<Entry>, s: nat, i: nat, end: nat, m: Option<nat>) {
    && i <= end <= |es|
    && (m.Some? ==> i <= m.value < end && es[m.value].key.sequence <= s)
    && forall j :: i <= j < end && (m.None? || j < m.value) ==> es[j].key.sequence > s
  }

  /** No shown entry of the scanned stretch but possibly m. */
  ghost predicate OnlyMayShow(es: seq<Entry>, s: nat, i: nat, end: nat, m: Option<nat>) {
    forall j: nat :: i <= j < end && Shown(es, s, j) ==> m == Some(j)
  }

  /** Taking entry i: it replaces m, unless m is a value of another key, which then is what the scan was after. */
  lemma BackStep(es: seq<Entry>, s: nat, i: nat, end: nat, m: Option<nat>)
    requires SortedEntries(es) && LastVisible(es, s, i + 1, end, m) && OnlyMayShow(es, s, i + 1, end, m)
    ensures es[i].key.sequence > s ==> LastVisible(es, s, i, end, m) && OnlyMayShow(es, s, i, end, m)
    ensures es[i].key.sequence <= s
            && (m.None? || es[m.value].key.kind.Deletion? || es[m.value].key.user <= es[i].key.user)
            ==> LastVisible(es, s, i, end, Some(i)) && OnlyMayShow(es, s, i, end, Some(i))
    ensures es[i].key.sequence <= s && m.Some? && es[m.value].key.kind.Value? && es[i].key.user < es[m.value].key.user
            ==> LastShown(es, s, end, m)
  {
    if m.Some? {
      assert Precedes(es[i].key, es[m.value].key);
      if es[i].key.user < es[m.value].key.user {
        MFirstOfKey(es, s, i, end, m.value);
      }
    }
  }

  lemma MFirstOfKey(es: seq<Entry>, s: nat, i: nat, end: nat, m: nat)
    requires SortedEntries(es) && i < m < end <= |es| && es[m].key.sequence <= s && es[i].key.user < es[m].key.user
    requires forall j :: i < j < m ==> es[j].key.sequence > s
    ensures NewestOfKey(es, s, m)
    ensures forall j: nat :: j <= i && Shown(es, s, j) ==> j < m
  {
    forall j | 0 <= j < i
      ensures es[j].key.user <= es[i].key.user
    {
      assert Precedes(es[j].key, es[i].key);
    }
  }

  /** A backward scan that has reached the front. */
  lemma BackEnd(es: seq<Entry>, s: nat, end: nat, m: Option<nat>)
    requires LastVisible(es, s, 0, end, m) && OnlyMayShow(es, s, 0, end, m)
    ensures LastShown(es, s, end, if m.Some? && es[m.value].key.kind.Value? then m else None)
  {
  }

  /** Moving backward, the cursor stands before the shown key, and nothing visible lies in between. */
  ghost predicate Behind(es: seq<Entry>, s: nat, at: nat, pos: nat) {
    && at < |es|
    && (pos < |es| ==> es[pos].key.user < es[at].key.user)
    && forall j :: 0 <= j < at && (pos < |es| ==> pos < j) && es[j].key.user < es[at].key.user ==>
       es[j].key.sequence > s
  }

  datatype Direction = Forward | Reverse

  class DBIter {
    const iter: Cursor
    const sequence: nat
    var savedKey: UserKey
    var savedValue: Bytes
    var direction: Direction
    var valid: bool
    /** The shown entry the iterator stands at while it is valid. */
    ghost var at: nat

    ghost predicate Ok()
      reads this, iter
    {
      && iter.Ok()
      && (valid ==> Shown(iter.entries, sequence, at))
      && (valid && direction == Forward ==> iter.pos == at)
      && (valid && direction == Reverse ==>
            && savedKey == iter.entries[at].key.user && savedValue == iter.entries[at].val
            && Behind(iter.entries, sequence, at, iter.pos))
    }

    ghost function Position(): Option<nat>
      reads this
    {
      if valid then Some(at) else None
    }

    constructor (iter: Cursor, sequence: nat)
      requires iter.Ok()
      ensures Ok() && !valid && this.iter == iter && this.sequence == sequence
    {
      this.iter, this.sequence := iter, sequence;
      savedKey, savedValue, direction, valid, at := 0.0, "", Forward, false, 0;
    }

    /** While valid, key and value are those of the shown entry, whichever way the iterator moves. */
    method Item() returns (key: UserKey, val: Bytes)
      requires Ok() && valid
      ensures key == iter.entries[at].key.user && val == iter.entries[at].val
    {
      if direction == Forward {
        var e := iter.Current();
        return e.key.user, e.val;
      }
      return savedKey, savedValue;
    }

    /** Looking forward from the cursor for the first visible value that no skipped key hides. */
    method FindNextUserEntry(skipping: bool, ghost low: Option<UserKey>)
      requires iter.Ok() && iter.Valid() && direction == Forward
      requires Blocks(iter.entries, sequence, iter.pos, low, skipping, savedKey)
      modifies this, iter
      ensures Ok() && direction == Forward && FirstShown(iter.entries, sequence, old(iter.pos), low, Position())
    {
      hide Shown, Blocks;
      var skip := skipping;
      ghost var es := iter.entries;
      while true
        invariant iter.Ok() && iter.Valid() && direction == Forward && old(iter.pos) <= iter.pos
        invariant Blocks(es, sequence, iter.pos, low, skip, savedKey)
        invariant forall j: nat :: old(iter.pos) <= j < iter.pos && Shown(es, sequence, j) ==>
                  !Above(low, es[j].key.user)
        decreases |es| - iter.pos
      {
        var e := iter.Current();
        BlocksStep(es, sequence, iter.pos, low, skip, savedKey);
        if e.key.sequence <= sequence {
          if e.key.kind.Deletion? {
            savedKey := e.key.user;
            skip := true;
          } else if !(skip && e.key.user <= savedKey) {
            valid := true;
            at := iter.pos;
            return;
          }
        }
        iter.Next();
        if !iter.Valid() {
          valid := false;
          ShownInRange(es, sequence);
          return;
        }
      }
    }

    /** Looking backward from the cursor: a key is settled when an entry of a smaller key turns up. */
    method FindPrevUserEntry(ghost end: nat)
      requires iter.Ok() && direction == Reverse
      requires end == if iter.Valid() then iter.pos + 1 else 0
      modifies this, iter
      ensures Ok() && LastShown(iter.entries, sequence, end, Position())
    {
      var kind := Deletion;
      ghost var es := iter.entries;
      ghost var m: Option<nat> := None;
      ghost var settled := false;
      while iter.Valid()
        invariant iter.Ok() && direction == Reverse
        invariant LastVisible(es, sequence, if iter.Valid() then iter.pos + 1 else 0, end, m)
        invariant OnlyMayShow(es, sequence, if iter.Valid() then iter.pos + 1 else 0, end, m)
        invariant kind == if m.Some? then es[m.value].key.kind else Deletion
        invariant kind.Value? ==> savedKey == es[m.value].key.user && savedValue == es[m.value].val
        decreases if iter.Valid() then iter.pos + 1 else 0
      {
        var e := iter.Current();
        BackStep(es, sequence, iter.pos, end, m);
        if e.key.sequence <= sequence {
          if kind.Value? && e.key.user < savedKey {
            settled := true;
            break;
          }
          kind := e.key.kind;
          m := Some(iter.pos);
          if kind.Deletion? {
            savedKey, savedValue := 0.0, "";
          } else {
            savedKey, savedValue := e.key.user, e.val;
          }
        }
        iter.Prev();
      }
      if !settled {
        BackEnd(es, sequence, end, m);
      }
      if kind.Deletion? {
        valid := false;
        savedKey, savedValue := 0.0, "";
        direction := Forward;
      } else {
        valid := true;
        at := m.value;
      }
    }

    method SeekToFirst()
      requires iter.Ok()
      modifies this, iter
      ensures Ok() && FirstShown(iter.entries, sequence, 0, None, Position())
    {
      direction := Forward;
      savedValue := "";
      iter.SeekToFirst();
      if iter.Valid() {
        FindNextUserEntry(false, None);
      } else {
        valid := false;
      }
    }

    method SeekToLast()
      requires iter.Ok()
      modifies this, iter
      ensures Ok() && LastShown(iter.entries, sequence, |iter.entries|, Position())
    {
      direction := Reverse;
      savedValue := "";
      iter.SeekToLast();
      FindPrevUserEntry(|iter.entries|);
    }

    /** Moves to the first shown entry whose key is at or after the target. */
    method Seek(target: UserKey)
      requires iter.Ok()
      modifies this, iter
      ensures Ok() && FirstFrom(iter.entries, sequence, target, Position())
    {
      direction := Forward;
      savedValue := "";
      iter.Seek(SeekKey(target, sequence));
      SeekBlocks(iter.entries, sequence, iter.pos, target);
      if iter.Valid() {
        ghost var start := iter.pos;
        FindNextUserEntry(false, None);
        SeekLands(iter.entries, sequence, start, target, Position());
      } else {
        valid := false;
        SeekLands(iter.entries, sequence, |iter.entries|, target, None);
      }
    }

    /** Moves to the first shown entry of a greater key, in whichever direction the iterator moved before. */
    method Next()
      requires Ok() && valid
      modifies this, iter
      ensures Ok() && FirstShown(iter.entries, sequence, 0, Some(iter.entries[old(at)].key.user), Position())
    {
      ghost var es, old_at := iter.entries, at;
      ghost var low := Some(es[at].key.user);
      if direction == Reverse {
        direction := Forward;
        if !iter.Valid() {
          iter.SeekToFirst();
        } else {
          BehindIsBefore(es, at, iter.pos);
          iter.Next();
        }
      } else {
        savedKey := iter.Current().key.user;
      }
      assert iter.Valid();
      ghost var start := iter.pos;
      NextBlocks(es, sequence, old_at, start);
      FindNextUserEntry(true, low);
      NextLands(es, sequence, old_at, start, Position());
    }

    /** Moves to the last shown entry of a smaller key, in whichever direction the iterator moved before. */
    method Prev()
      requires Ok() && valid
      modifies this, iter
      ensures Ok() && LastShown(iter.entries, sequence, old(at), Position())
    {
      ghost var es, old_at := iter.entries, at;
      if direction == Forward {
        savedKey := iter.Current().key.user;
        while true
          invariant iter.Ok() && iter.Valid() && iter.pos <= old_at && valid && direction == Forward
          invariant forall j :: iter.pos <= j <= old_at ==> es[j].key.user == savedKey
          decreases iter.pos
        {
          iter.Prev();
          if !iter.Valid() {
            valid := false;
            savedValue := "";
            PrevLands(es, sequence, old_at, 0, None);
            return;
          }
          if iter.Current().key.user < savedKey {
            break;
          }
          assert iter.pos + 1 <= old_at + 1 && (iter.pos < old_at ==> Precedes(es[iter.pos].key, es[old_at].key));
        }
        direction := Reverse;
      }
      ghost var end := if iter.Valid() then iter.pos + 1 else 0;
      PrevGap(es, sequence, old_at, iter.pos, end);
      FindPrevUserEntry(end);
      PrevLands(es, sequence, old_at, end, Position());
    }
  }

  lemma ShownInRange(es: seq<Entry>, s: nat)
    ensures forall j: nat :: Shown(es, s, j) ==> j < |es|
  {
  }

  /** p is the first shown entry whose key is at or after u. */
  ghost predicate FirstFrom(es: seq<Entry>, s: nat, u: UserKey, p: Option<nat>) {
    && (p.Some? ==> Shown(es, s, p.value) && u <= es[p.value].key.user)
    && forall j: nat :: Shown(es, s, j) && u <= es[j].key.user ==> p.Some? && p.value <= j
  }

  lemma SeekBlocks(es: seq<Entry>, s: nat, pos: nat, u: UserKey)
    requires SortedEntries(es) && pos <= |es|
    requires forall j :: 0 <= j < pos ==> Less(es[j].key, SeekKey(u, s))
    requires pos < |es| ==> !Less(es[pos].key, SeekKey(u, s))
    ensures forall skip :: Blocks(es, s, pos, None, false, skip)
    ensures forall j :: pos <= j < |es| ==> u <= es[j].key.user
    ensures forall j :: 0 <= j < pos && u <= es[j].key.user ==> es[j].key.sequence > s
  {
    forall j | pos <= j < |es|
      ensures u <= es[j].key.user && !SeenBefore(es, s, pos, es[j].key.user)
    {
      assert pos < j ==> Precedes(es[pos].key, es[j].key);
    }
  }

  lemma SeekLands(es: seq<Entry>, s: nat, start: nat, u: UserKey, p: Option<nat>)
    requires start <= |es| && FirstShown(es, s, start, None, p)
    requires forall j :: start <= j < |es| ==> u <= es[j].key.user
    requires forall j :: 0 <= j < start && u <= es[j].key.user ==> es[j].key.sequence > s
    ensures FirstFrom(es, s, u, p)
  {
  }

  lemma BehindIsBefore(es: seq<Entry>, at: nat, pos: nat)
    requires SortedEntries(es) && at < |es| && pos < |es| && es[pos].key.user < es[at].key.user
    ensures pos < at
  {
  }

  /** Nothing between the cursor and the current key is visible, so the current key is all there is to skip. */
  lemma NextBlocks(es: seq<Entry>, s: nat, at: nat, start: nat)
    requires SortedEntries(es) && at < |es| && start <= at
    requires start > 0 && start < at ==> es[start - 1].key.user < es[at].key.user
    requires forall j :: start <= j < at && es[j].key.user < es[at].key.user ==> es[j].key.sequence > s
    ensures Blocks(es, s, start, Some(es[at].key.user), true, es[at].key.user)
  {
    forall j | start <= j < |es| && es[j].key.sequence <= s
      ensures es[at].key.user <= es[j].key.user
      ensures SeenBefore(es, s, start, es[j].key.user) ==> es[j].key.user <= es[at].key.user
    {
      assert j < at ==> Precedes(es[j].key, es[at].key);
      assert at < j ==> Precedes(es[at].key, es[j].key);
      forall k | 0 <= k < start
        ensures es[k].key.user <= es[at].key.user
      {
        assert k < at ==> Precedes(es[k].key, es[at].key);
      }
    }
  }

  lemma NextLands(es: seq<Entry>, s: nat, at: nat, start: nat, p: Option<nat>)
    requires SortedEntries(es) && at < |es| && start <= at
    requires FirstShown(es, s, start, Some(es[at].key.user), p)
    ensures FirstShown(es, s, 0, Some(es[at].key.user), p)
  {
    forall j | 0 <= j < start
      ensures es[j].key.user <= es[at].key.user
    {
      assert j < at ==> Precedes(es[j].key, es[at].key);
    }
  }

  /** Between the backward cursor and the current key nothing is shown. */
  lemma PrevGap(es: seq<Entry>, s: nat, at: nat, pos: nat, end: nat)
    requires SortedEntries(es) && Shown(es, s, at) && end == if pos < |es| then pos + 1 else 0
    requires pos < |es| ==> es[pos].key.user < es[at].key.user
    ensures end <= at
  {
    if pos < |es| {
      BehindIsBefore(es, at, pos);
    }
  }

  lemma PrevLands(es: seq<Entry>, s: nat, at: nat, end: nat, p: Option<nat>)
    requires SortedEntries(es) && Shown(es, s, at) && end <= at && LastShown(es, s, end, p)
    requires forall j :: end <= j < at ==> es[j].key.user == es[at].key.user || es[j].key.sequence > s
    ensures LastShown(es, s, at, p)
  {
    forall j: nat | end <= j < at
      ensures !Shown(es, s, j)
    {
    }
  }

  /** Next and Prev are inverse moves: one finds q from p exactly when the other finds p from q. */
  lemma NextPrevInverse(es: seq<Entry>, s: nat, p: nat, q: nat)
    requires SortedEntries(es) && Shown(es, s, p) && Shown(es, s, q)
    ensures FirstShown(es, s, 0, Some(es[p].key.user), Some(q)) <==> LastShown(es, s, q, Some(p))
  {
    forall i: nat, j: nat | Shown(es, s, i) && Shown(es, s, j)
      ensures es[i].key.user < es[j].key.user <==> i < j
    {
      if i < j {
        ShownAscending(es, s, i, j);
      } else if j < i {
        ShownAscending(es, s, j, i);
      }
    }
  }
}
