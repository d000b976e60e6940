/** DoCompactionWork: which entries a compaction drops, and when reads survive it. */
module Compactions {
  import opened Basics
  import opened InternalKeys
  import opened Versions

  predicate Covers(f: FileMeta, u: UserKey) {
    f.smallest.user <= u <= f.largest.user
  }

  /** No file two or more levels below the compaction's level has u in its range. */
  predicate BaseLevel(v: Version, level: nat, u: UserKey) {
    forall l, i :: level + 2 <= l < |v| && 0 <= i < |v[l]| ==> !Covers(v[l][i], u)
  }

  /** A running compaction: the version it reads and, per level, the cursor of the tombstone check. */
  class Compaction {
    const version: Version
    const level: nat
    const levelPtrs: array<nat>
    /** The greatest user key the cursors have been moved for. */
    ghost var asked: Option<UserKey>

    ghost predicate Valid()
      reads this, levelPtrs
    {
      && |version| == NUM_LEVELS
      && levelPtrs.Length == NUM_LEVELS
      && (forall l :: level + 2 <= l < NUM_LEVELS ==> levelPtrs[l] <= |version[l]|)
      && (asked.None? ==> forall l :: level + 2 <= l < NUM_LEVELS ==> levelPtrs[l] == 0)
      && (forall l, i :: asked.Some? && level + 2 <= l < NUM_LEVELS && 0 <= i < levelPtrs[l]
            ==> version[l][i].largest.user < asked.value)
    }

    constructor (version: Version, level: nat)
      requires VersionOk(version)
      ensures Valid() && this.version == version && this.level == level && asked == None && fresh(levelPtrs)
    {
      this.version := version;
      this.level := level;
      levelPtrs := new nat[NUM_LEVELS](_ => 0);
      asked := None;
    }

    /** Answers for user keys asked in ascending order; the cursors only move forward. */
    method IsBaseLevelForKey(u: UserKey) returns (base: bool)
      requires VersionOk(version) && Valid() && (asked.Some? ==> asked.value <= u)
      modifies this, levelPtrs
      ensures Valid() && asked == Some(u)
      ensures base <==> BaseLevel(version, level, u)
    {
      asked := Some(u);
      var lvl := level + 2;
      while lvl < NUM_LEVELS
        invariant Valid() && asked == Some(u)
        invariant level + 2 <= lvl
        invariant forall l, i :: level + 2 <= l < lvl && l < NUM_LEVELS && 0 <= i < |version[l]|
                    ==> !Covers(version[l][i], u)
      {
        var files := version[lvl];
        while levelPtrs[lvl] < |files|
          invariant Valid() && asked == Some(u)
          invariant forall l, i :: level + 2 <= l < lvl && 0 <= i < |version[l]| ==> !Covers(version[l][i], u)
          decreases |files| - levelPtrs[lvl]
        {
          var f := files[levelPtrs[lvl]];
          if u <= f.largest.user {
            if u >= f.smallest.user {
              assert Covers(version[lvl][levelPtrs[lvl]], u);
              return false;
            }
            break;
          }
          levelPtrs[lvl] := levelPtrs[lvl] + 1;
        }
        NoneCovers(files, levelPtrs[lvl], u);
        lvl := lvl + 1;
      }
      base := true;
    }
  }

  /** With every file before the cursor behind u and the one at the cursor past u, no file covers u. */
  lemma NoneCovers(files: seq<FileMeta>, p: nat, u: UserKey)
    requires forall i :: 0 <= i < |files| ==> FileOk(files[i])
    requires DisjointLevel(files) && p <= |files|
    requires forall i :: 0 <= i < p ==> files[i].largest.user < u
    requires p < |files| ==> u < files[p].smallest.user
    ensures forall i :: 0 <= i < |files| ==> !Covers(files[i], u)
  {
    forall i | p < i < |files|
      ensures !Covers(files[i], u)
    {
      SmallestFirst(files[p]);
      assert Precedes(files[p].largest, files[i].smallest);
    }
  }

  // ---- what is kept ----

  /** Rule (A): a newer entry of the same user key is already visible to every snapshot. */
  predicate Hidden(input: seq<Entry>, i: nat, snap: nat)
    requires i < |input|
  {
    i > 0 && input[i - 1].key.user == input[i].key.user && input[i - 1].key.sequence <= snap
  }

  /** A tombstone every snapshot sees, with no data of its key two or more levels down. */
  predicate Obsolete(v: Version, level: nat, e: Entry, snap: nat) {
    e.key.kind.Deletion? && e.key.sequence <= snap && BaseLevel(v, level, e.key.user)
  }

  predicate Dropped(v: Version, level: nat, input: seq<Entry>, i: nat, snap: nat)
    requires i < |input|
  {
    Hidden(input, i, snap) || Obsolete(v, level, input[i], snap)
  }

  function Kept(v: Version, level: nat, input: seq<Entry>, snap: nat): seq<Entry> {
    if |input| == 0 then []
    else
      var n := |input| - 1;
      Kept(v, level, input[..n], snap) + if Dropped(v, level, input, n, snap) then [] else [input[n]]
  }

  function Contents(files: seq<FileMeta>): seq<Entry> {
    if |files| == 0 then [] else Contents(files[..|files| - 1]) + files[|files| - 1].entries
  }

  /** The metadata of an output table built from these entries. */
  function TableOf(number: nat, size: nat, entries: seq<Entry>): FileMeta
    requires entries != []
  {
    FileMeta(number, size, entries[0].key, entries[|entries| - 1].key, entries)
  }

  predicate IsTable(f: FileMeta) {
    f.entries != [] && f == TableOf(f.number, f.size, f.entries)
  }

  predicate Tables(files: seq<FileMeta>, first: nat) {
    forall i :: 0 <= i < |files| ==> IsTable(files[i]) && files[i].number == first + i
  }

  /** The merge loop. Output files end wherever size or grandparent overlap says so, hence anywhere. */
  method DoCompactionWork(c: Compaction, snap: nat, input: seq<Entry>, firstNumber: nat)
    returns (outputs: seq<FileMeta>)
    requires VersionOk(c.version) && c.Valid() && c.asked == None && SortedEntries(input) && snap < MAX_SEQUENCE
    modifies c, c.levelPtrs
    ensures Contents(outputs) == Kept(c.version, c.level, input, snap)
    ensures Tables(outputs, firstNumber) && SortedEntries(Contents(outputs))
    ensures forall e :: e in Contents(outputs) <==>
              && e in input
              && (forall x :: x in input && x.key.user == e.key.user && x.key.sequence > e.key.sequence ==>
                    x.key.sequence > snap)
              && (e.key.kind.Deletion? && e.key.sequence <= snap ==>
                    exists l, f :: c.level + 2 <= l < |c.version| && f in c.version[l]
                      && f.smallest.user <= e.key.user <= f.largest.user)
  {
    hide VersionOk, Obsolete, Tables, Kept, SortedEntries;
    assert Kept(c.version, c.level, input[..0], snap) == [] && Tables([], firstNumber) by {
      NothingKept(c.version, c.level, input, snap, firstNumber);
    }
    outputs := [];
    var builder: seq<Entry> := [];
    var currentUserKey: Option<UserKey> := None;
    var lastSequenceForKey := MAX_SEQUENCE;
    var i := 0;
    while i < |input|
      invariant 0 <= i <= |input| && c.Valid()
      invariant c.asked.Some? ==> i > 0 && c.asked.value <= input[i - 1].key.user
      invariant i == 0 ==> currentUserKey == None
      invariant i > 0 ==>
                  currentUserKey == Some(input[i - 1].key.user) && lastSequenceForKey == input[i - 1].key.sequence
      invariant Contents(outputs) + builder == Kept(c.version, c.level, input[..i], snap)
      invariant Tables(outputs, firstNumber)
    {
      var stopBefore: bool := *;
      outputs, builder := FinishIf(stopBefore, outputs, builder, firstNumber);
      var e := input[i];
      if currentUserKey != Some(e.key.user) {
        currentUserKey := Some(e.key.user);
        lastSequenceForKey := MAX_SEQUENCE;
      }
      if i > 0 {
        InOrder(input, i);
      }
      var drop := DropEntry(c, e, lastSequenceForKey, snap);
      lastSequenceForKey := e.key.sequence;
      KeptStep(c.version, c.level, input, i, snap);
      if !drop {
        builder := builder + [e];
        var bigEnough: bool := *;
        outputs, builder := FinishIf(bigEnough, outputs, builder, firstNumber);
      }
      i := i + 1;
    }
    outputs, builder := FinishIf(true, outputs, builder, firstNumber);
    assert input[..|input|] == input;
    KeptSorted(c.version, c.level, input, snap);
    forall e
      ensures e in Kept(c.version, c.level, input, snap) <==> e in input && Survives(c.version, c.level, input, snap, e)
    {
      KeptIff(c.version, c.level, input, snap, e);
    }
  }

  lemma NothingKept(v: Version, level: nat, input: seq<Entry>, snap: nat, first: nat)
    ensures Kept(v, level, input[..0], snap) == [] && Tables([], first) && Contents([]) == []
  {
  }

  lemma InOrder(input: seq<Entry>, i: nat)
    requires SortedEntries(input) && 0 < i < |input|
    ensures Precedes(input[i - 1].key, input[i].key)
  {
  }

  /** Rule (A) first; the tombstone rule is tried only when (A) does not fire. */
  method DropEntry(c: Compaction, e: Entry, lastSequenceForKey: nat, snap: nat) returns (drop: bool)
    requires VersionOk(c.version) && c.Valid() && (c.asked.Some? ==> c.asked.value <= e.key.user)
    modifies c, c.levelPtrs
    ensures c.Valid() && (c.asked.Some? ==> c.asked.value <= e.key.user)
    ensures drop <==> lastSequenceForKey <= snap || Obsolete(c.version, c.level, e, snap)
    ensures e.key.kind.Deletion? && e.key.sequence <= snap < lastSequenceForKey ==>
              (drop <==> !exists l, f :: c.level + 2 <= l < |c.version| && f in c.version[l]
                           && f.smallest.user <= e.key.user <= f.largest.user)
    ensures !(e.key.kind.Deletion? && e.key.sequence <= snap) ==> (drop <==> lastSequenceForKey <= snap)
  {
    if lastSequenceForKey <= snap {
      return true;
    }
    if e.key.kind.Deletion? && e.key.sequence <= snap {
      drop := c.IsBaseLevelForKey(e.key.user);
      BaseLevelIff(c.version, c.level, e.key.user);
    } else {
      drop := false;
    }
  }

  lemma KeptStep(v: Version, level: nat, input: seq<Entry>, i: nat, snap: nat)
    requires i < |input|
    ensures Kept(v, level, input[..i + 1], snap)
            == Kept(v, level, input[..i], snap) + if Dropped(v, level, input, i, snap) then [] else [input[i]]
  {
    assert input[..i + 1][..i] == input[..i];
  }

  /** Closes the current output file, if there is one and it is time. */
  method FinishIf(finish: bool, outputs: seq<FileMeta>, builder: seq<Entry>, firstNumber: nat)
    returns (outputs': seq<FileMeta>, builder': seq<Entry>)
    requires Tables(outputs, firstNumber)
    ensures Contents(outputs') + builder' == Contents(outputs) + builder && Tables(outputs', firstNumber)
    ensures finish ==> builder' == []
  {
    if finish && builder != [] {
      var size: nat := *;
      outputs' := outputs + [TableOf(firstNumber + |outputs|, size, builder)];
      assert outputs'[..|outputs|] == outputs;
      return outputs', [];
    }
    return outputs, builder;
  }

  // ---- which entries survive ----

  lemma {:induction false} KeptMembers(v: Version, level: nat, input: seq<Entry>, snap: nat, e: Entry)
    ensures e in Kept(v, level, input, snap) <==>
              exists i :: 0 <= i < |input| && input[i] == e && !Dropped(v, level, input, i, snap)
  {
    if |input| > 0 {
      var n := |input| - 1;
      var front := input[..n];
      KeptMembers(v, level, front, snap, e);
      hide Dropped;
      forall i | 0 <= i < n
        ensures Dropped(v, level, front, i, snap) == Dropped(v, level, input, i, snap) && front[i] == input[i]
      {
        DroppedInFront(v, level, input, n, i, snap);
      }
      if e in Kept(v, level, front, snap) {
        var i :| 0 <= i < |front| && front[i] == e && !Dropped(v, level, front, i, snap);
        assert input[i] == e;
      }
    }
  }

  /** Whether an entry is dropped depends only on the input up to it. */
  lemma DroppedInFront(v: Version, level: nat, input: seq<Entry>, n: nat, i: nat, snap: nat)
    requires i < n <= |input|
    ensures Dropped(v, level, input[..n], i, snap) == Dropped(v, level, input, i, snap)
  {
    hide Obsolete;
  }

  lemma {:induction false} KeptSorted(v: Version, level: nat, input: seq<Entry>, snap: nat)
    requires SortedEntries(input)
    ensures SortedEntries(Kept(v, level, input, snap))
    ensures forall e :: e in Kept(v, level, input, snap) ==> e in input
  {
    if |input| > 0 {
      var n := |input| - 1;
      KeptSorted(v, level, input[..n], snap);
      var k := Kept(v, level, input[..n], snap);
      forall i | 0 <= i < |k|
        ensures Precedes(k[i].key, input[n].key)
      {
        assert k[i] in input[..n];
      }
    }
  }

  /** No newer input entry of its key is visible to every snapshot, and if it is a deletion every snapshot sees, some
      file two or more levels down has its key in range. */
  ghost predicate Survives(v: Version, level: nat, input: seq<Entry>, snap: nat, e: Entry) {
    && (forall x :: x in input && x.key.user == e.key.user && x.key.sequence > e.key.sequence ==> x.key.sequence > snap)
    && (e.key.kind.Deletion? && e.key.sequence <= snap ==>
          exists l, f :: level + 2 <= l < |v| && f in v[l] && f.smallest.user <= e.key.user <= f.largest.user)
  }

  /** What a compaction keeps, by what the entries are instead of where they stand in the stream. */
  lemma KeptIff(v: Version, level: nat, input: seq<Entry>, snap: nat, e: Entry)
    requires SortedEntries(input)
    ensures e in Kept(v, level, input, snap) <==> e in input && Survives(v, level, input, snap, e)
  {
    hide Kept, Survives, Dropped;
    KeptMembers(v, level, input, snap, e);
    forall i | 0 <= i < |input| && input[i] == e
      ensures Dropped(v, level, input, i, snap) <==> !Survives(v, level, input, snap, e)
    {
      DroppedIff(v, level, input, snap, i);
    }
  }

  lemma DroppedIff(v: Version, level: nat, input: seq<Entry>, snap: nat, i: nat)
    requires SortedEntries(input) && i < |input|
    ensures Dropped(v, level, input, i, snap) <==> !Survives(v, level, input, snap, input[i])
  {
    hide BaseLevel, SortedEntries;
    HiddenIff(input, snap, i);
    BaseLevelIff(v, level, input[i].key.user);
  }

  lemma HiddenIff(input: seq<Entry>, snap: nat, i: nat)
    requires SortedEntries(input) && i < |input|
    ensures Hidden(input, i, snap) <==>
              exists x :: x in input && x.key.user == input[i].key.user
                && input[i].key.sequence < x.key.sequence <= snap
  {
    if Hidden(input, i, snap) {
      assert input[i - 1] in input && Precedes(input[i - 1].key, input[i].key);
    }
    if x :| x in input && x.key.user == input[i].key.user && input[i].key.sequence < x.key.sequence <= snap {
      var p :| 0 <= p < |input| && input[p] == x;
      OlderDropped(input, snap, p, i);
    }
  }

  lemma BaseLevelIff(v: Version, level: nat, u: UserKey)
    ensures BaseLevel(v, level, u) <==>
              !exists l, f :: level + 2 <= l < |v| && f in v[l] && f.smallest.user <= u <= f.largest.user
  {
    if l, f :| level + 2 <= l < |v| && f in v[l] && f.smallest.user <= u <= f.largest.user {
      var i :| 0 <= i < |v[l]| && v[l][i] == f;
      assert Covers(v[l][i], u);
    }
  }

  /** Among the inputs, everything older than an entry every snapshot sees is dropped by rule (A). */
  lemma {:induction false} OlderDropped(input: seq<Entry>, snap: nat, p: nat, q: nat)
    requires SortedEntries(input) && p < q < |input|
    requires input[p].key.user == input[q].key.user && input[p].key.sequence <= snap
    ensures Hidden(input, q, snap)
  {
    assert Precedes(input[q - 1].key, input[q].key);
    assert p < q - 1 ==> Precedes(input[p].key, input[q - 1].key);
  }

  /** An entry that is its key's newest below s >= snap is dropped only as an obsolete tombstone. */
  lemma NewestNotHidden(input: seq<Entry>, rest: set<Entry>, snap: nat, s: nat, i: nat)
    requires SortedEntries(input) && snap <= s && i < |input|
    requires Newest(rest + EntrySet(input), input[i].key.user, s, input[i])
    ensures !Hidden(input, i, snap)
  {
    if i > 0 {
      assert Precedes(input[i - 1].key, input[i].key);
      assert input[i - 1] in EntrySet(input);
    }
  }

  // ---- reads before and after ----

  ghost predicate ReadsPreserved(v: Version, level: nat, input: seq<Entry>, snap: nat, rest: set<Entry>) {
    forall u, s {:trigger Read(rest + EntrySet(Kept(v, level, input, snap)), u, s)} :: snap <= s ==>
      Read(rest + EntrySet(Kept(v, level, input, snap)), u, s) == Read(rest + EntrySet(input), u, s)
  }

  /** The inputs hold the tombstone that answers u at the smallest snapshot, the compaction discards it as
      obsolete, and what the compaction leaves alone answers u with a value. */
  ghost predicate Uncovers(v: Version, level: nat, input: seq<Entry>, snap: nat, rest: set<Entry>, u: UserKey) {
    && (exists d :: d in input && Newest(rest + EntrySet(input), u, snap, d) && Obsolete(v, level, d, snap))
    && Read(rest, u, snap).Found?
  }

  /** A key whose newest entry below s survives reads the same. */
  lemma KeptNewestReads(v: Version, level: nat, input: seq<Entry>, snap: nat, rest: set<Entry>, u: UserKey, s: nat,
                        e: Entry)
    requires SortedEntries(input) && DistinctSeq(rest + EntrySet(input))
    requires Newest(rest + EntrySet(input), u, s, e)
    requires e in rest || e in Kept(v, level, input, snap)
    ensures Read(rest + EntrySet(Kept(v, level, input, snap)), u, s) == Read(rest + EntrySet(input), u, s)
  {
    KeptSorted(v, level, input, snap);
    var after := rest + EntrySet(Kept(v, level, input, snap));
    assert Newest(after, u, s, e);
    ReadIsNewest(after, u, s, e);
    ReadIsNewest(rest + EntrySet(input), u, s, e);
  }

  /** Once the tombstone at the top of a key is gone, only what was left alone can answer. */
  lemma UncoveredReads(v: Version, level: nat, input: seq<Entry>, snap: nat, rest: set<Entry>, u: UserKey, s: nat,
                       d: Entry)
    requires SortedEntries(input) && DistinctSeq(rest + EntrySet(input)) && snap <= s
    requires d in input && Newest(rest + EntrySet(input), u, s, d) && Obsolete(v, level, d, snap)
    ensures Read(rest + EntrySet(input), u, s) == NotFound
    ensures Newest(rest + EntrySet(input), u, snap, d)
    ensures Read(rest + EntrySet(Kept(v, level, input, snap)), u, s) == Read(rest, u, snap)
  {
    var after := rest + EntrySet(Kept(v, level, input, snap));
    ReadIsNewest(rest + EntrySet(input), u, s, d);
    KeptBelowNothing(v, level, input, snap, rest, u, s, d);
    forall x | x in rest && Visible(x, u, s)
      ensures Visible(x, u, snap)
    {
      assert x in rest + EntrySet(input);
    }
    assert DistinctSeq(after) by {
      KeptSorted(v, level, input, snap);
    }
    var best := ReadCases(rest, u, snap);
    if best.None? {
      ReadNothing(after, u, s);
    } else {
      assert Newest(after, u, s, best.value);
      ReadIsNewest(after, u, s, best.value);
    }
  }

  lemma KeptBelowNothing(v: Version, level: nat, input: seq<Entry>, snap: nat, rest: set<Entry>, u: UserKey, s: nat,
                         d: Entry)
    requires SortedEntries(input) && snap <= s
    requires d in input && Newest(rest + EntrySet(input), u, s, d) && Obsolete(v, level, d, snap)
    ensures forall x :: x in Kept(v, level, input, snap) ==> !Visible(x, u, s)
  {
    var p :| 0 <= p < |input| && input[p] == d;
    forall x | x in Kept(v, level, input, snap)
      ensures !Visible(x, u, s)
    {
      KeptMembers(v, level, input, snap, x);
      var q :| 0 <= q < |input| && input[q] == x && !Dropped(v, level, input, q, snap);
      if Visible(x, u, s) {
        assert x in rest + EntrySet(input);
        assert q < p ==> Precedes(x.key, d.key);
        if p < q {
          OlderDropped(input, snap, p, q);
        }
      }
    }
  }

  /** A compaction preserves every read at or above its smallest snapshot exactly when it uncovers no key. */
  lemma CompactionPreservesReadsIff(v: Version, level: nat, input: seq<Entry>, snap: nat, rest: set<Entry>)
    requires SortedEntries(input) && DistinctSeq(rest + EntrySet(input))
    ensures ReadsPreserved(v, level, input, snap, rest) <==> forall u :: !Uncovers(v, level, input, snap, rest, u)
  {
    if forall u :: !Uncovers(v, level, input, snap, rest, u) {
      forall u, s | snap <= s
        ensures Read(rest + EntrySet(Kept(v, level, input, snap)), u, s) == Read(rest + EntrySet(input), u, s)
      {
        assert !Uncovers(v, level, input, snap, rest, u);
        CoveredReads(v, level, input, snap, rest, u, s);
      }
    }
    forall u | Uncovers(v, level, input, snap, rest, u)
      ensures !ReadsPreserved(v, level, input, snap, rest)
    {
      var d :| d in input && Newest(rest + EntrySet(input), u, snap, d) && Obsolete(v, level, d, snap);
      UncoveredReads(v, level, input, snap, rest, u, snap, d);
      assert Read(rest + EntrySet(Kept(v, level, input, snap)), u, snap) != Read(rest + EntrySet(input), u, snap);
    }
  }

  lemma CoveredReads(v: Version, level: nat, input: seq<Entry>, snap: nat, rest: set<Entry>, u: UserKey, s: nat)
    requires SortedEntries(input) && DistinctSeq(rest + EntrySet(input)) && snap <= s
    requires !Uncovers(v, level, input, snap, rest, u)
    ensures Read(rest + EntrySet(Kept(v, level, input, snap)), u, s) == Read(rest + EntrySet(input), u, s)
  {
    var all, after := rest + EntrySet(input), rest + EntrySet(Kept(v, level, input, snap));
    var e := ReadCases(all, u, s);
    if e.None? {
      KeptSorted(v, level, input, snap);
      assert NoneVisible(after, u, s) by {
        assert forall x :: x in after ==> x in all;
      }
      ReadNothing(after, u, s);
    } else if e.value in rest || e.value in Kept(v, level, input, snap) {
      KeptNewestReads(v, level, input, snap, rest, u, s, e.value);
    } else {
      var i :| 0 <= i < |input| && input[i] == e.value;
      KeptMembers(v, level, input, snap, e.value);
      NewestNotHidden(input, rest, snap, s, i);
      assert Obsolete(v, level, e.value, snap);
      UncoveredReads(v, level, input, snap, rest, u, s, e.value);
    }
  }
}
