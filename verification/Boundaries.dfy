/** The next-level boundary file: exactly when leaving it out of a compaction brings a deleted key back. */
module Boundaries {
  import opened Basics
  import opened InternalKeys
  import opened Versions
  import opened Inputs
  import opened Builders
  import opened Compactions
  import opened Installs
  import opened Stores

  lemma InputFile(st: Store, j: Job, input: seq<Entry>, d: Entry) returns (f: FileMeta)
    requires Inv(st) && st.job == Some(j) && Merged(input, j.inputs0 + j.inputs1) && d in input
    ensures d in f.entries && (f in j.inputs0 || f in j.inputs1)
    ensures j.level + 1 < |st.version| && (f in st.version[j.level] || f in st.version[j.level + 1])
    ensures InputsOk(st.version, j.level, j.inputs0, j.inputs1)
  {
    hide Stored, Faithful, MemoryOk, Selected;
    JobInputsOk(st);
    f :| f in j.inputs0 + j.inputs1 && d in f.entries;
  }

  lemma MemoryIsNewer(st: Store, j: Job, input: seq<Entry>, d: Entry, x: Entry)
    requires Inv(st) && st.job == Some(j) && Merged(input, j.inputs0 + j.inputs1) && d in input
    requires x in MemoryEntries(st)
    ensures x.key.sequence > d.key.sequence
  {
    hide Stored, Faithful, InputsOk, Selected;
    var f := InputFile(st, j, input, d);
    EntryIn(st.version, d);
  }

  lemma DeeperMisses(v: Version, level: nat, l: nat, g: FileMeta, x: Entry, u: UserKey)
    requires Stored(v) && BaseLevel(v, level, u) && level + 2 <= l < |v| && g in v[l] && x in g.entries
    ensures x.key.user != u
  {
    EntryBounds(g, x);
    var i :| 0 <= i < |v[l]| && v[l][i] == g;
    assert !Covers(v[l][i], u);
  }

  lemma ApartEntries(v: Version, level: nat, f: FileMeta, d: Entry, l: nat, g: FileMeta, x: Entry)
    requires Stored(v) && level + 1 < |v| && l < |v| && g in v[l] && (f in v[level] || f in v[level + 1])
    requires d in f.entries && x in g.entries
    requires g.largest.user < f.smallest.user || f.largest.user < g.smallest.user
    ensures d.key.user != x.key.user
  {
    EntryBounds(f, d);
    EntryBounds(g, x);
  }

  lemma ShallowLeft(st: Store, j: Job, f: FileMeta, l: nat, g: FileMeta)
    requires Stored(st.version) && j.level + 1 < |st.version| && InputsOk(st.version, j.level, j.inputs0, j.inputs1)
    requires f in j.inputs0 || f in j.inputs1
    requires l <= j.level && Left(st.version, j.level, j.inputs0, j.inputs1, l, g)
    ensures NewerThan(g, f)
  {
  }

  /** A next-level file left out shares no user key with the inputs of the compaction's own level. */
  lemma NextLevelUntouched(st: Store, j: Job, f: FileMeta, g: FileMeta)
    requires Inv(st) && st.job == Some(j) && f in j.inputs0
    requires g in st.version[j.level + 1] && g !in j.inputs1
    ensures g.largest.user < f.smallest.user || f.largest.user < g.smallest.user
  {
    hide Stored, Faithful, MemoryOk;
    var smallest, largest :| IsRange(j.inputs0, smallest, largest)
      && j.inputs1 == Overlapping(st.version[j.level + 1], Some(smallest.user), Some(largest.user));
    OverlappingMembers(st.version[j.level + 1], Some(smallest.user), Some(largest.user));
  }

  // ---- a key that is uncovered is exposed ----

  /** If the data left alone answers u with a value although the inputs' deletion is newer, that value is in a left-out
      file of the next level, which lies behind the file of the deletion. */
  lemma ValueIsNextLevel(st: Store, j: Job, input: seq<Entry>, d: Entry, e: Entry)
    returns (f: FileMeta, g: FileMeta)
    requires Inv(st) && st.job == Some(j) && Merged(input, j.inputs0 + j.inputs1) && d in input
    requires Obsolete(st.version, j.level, d, j.snap)
    requires e in LeftAlone(st, j.level, j.inputs0, j.inputs1) && e.key.user == d.key.user
    requires e.key.sequence < d.key.sequence
    ensures j.level + 1 < |st.version| && f in j.inputs1 && d in f.entries
    ensures g in st.version[j.level + 1] && g !in j.inputs1 && e in g.entries && Before(f, g)
  {
    hide Stored, Faithful, MemoryOk, Merged, InputsOk, BaseLevel, Selected;
    if e in MemoryEntries(st) {
      MemoryIsNewer(st, j, input, d, e);
    }
    f := InputFile(st, j, input, d);
    RestIn(st.version, j.level, j.inputs0, j.inputs1, e);
    var l: nat;
    l, g :| Left(st.version, j.level, j.inputs0, j.inputs1, l, g) && e in g.entries;
    if l >= j.level + 2 {
      DeeperMisses(st.version, j.level, l, g, e, d.key.user);
    } else if l <= j.level {
      ShallowLeft(st, j, f, l, g);
    } else if f in j.inputs0 {
      NextLevelUntouched(st, j, f, g);
      ApartEntries(st.version, j.level, f, d, j.level + 1, g, e);
    } else {
      LeftBehind(st, j, f, d, g, e);
    }
  }

  lemma LeftBehind(st: Store, j: Job, f: FileMeta, d: Entry, g: FileMeta, e: Entry)
    requires Stored(st.version) && j.level + 1 < |st.version| && InputsOk(st.version, j.level, j.inputs0, j.inputs1)
    requires f in j.inputs1 && d in f.entries && g in st.version[j.level + 1] && g !in j.inputs1 && e in g.entries
    requires e.key.user == d.key.user && e.key.sequence < d.key.sequence
    ensures Before(f, g)
  {
    EntryBounds(f, d);
    EntryBounds(g, e);
    assert f in j.inputs0 + j.inputs1;
  }

  /** What a read of the data left alone finds: a value older than the deletion. */
  lemma LeftAnswer(st: Store, j: Job, input: seq<Entry>, u: UserKey, d: Entry) returns (e: Entry)
    requires Inv(st) && st.job == Some(j) && Merged(input, j.inputs0 + j.inputs1) && d in input
    requires d.key.kind.Deletion?
    requires Newest(LeftAlone(st, j.level, j.inputs0, j.inputs1) + EntrySet(input), u, j.snap, d)
    requires Read(LeftAlone(st, j.level, j.inputs0, j.inputs1), u, j.snap).Found?
    ensures Newest(LeftAlone(st, j.level, j.inputs0, j.inputs1), u, j.snap, e) && e.key.kind.Value?
    ensures e.key.sequence < d.key.sequence
  {
    hide Stored, Faithful, Merged, InputsOk, Selected, LeftAlone, Live;
    JobInputsOk(st);
    LiveParts(st, j, input);
    LiveDistinct(st);
    var rest := LeftAlone(st, j.level, j.inputs0, j.inputs1);
    assert DistinctSeq(rest);
    var answer := ReadCases(rest, u, j.snap);
    e := answer.value;
    assert e in rest + EntrySet(input) && d in rest + EntrySet(input);
  }

  /** The left-out file that answers starts with the value, and the file before it is an input. */
  lemma AnswerStraddles(st: Store, j: Job, u: UserKey, d: Entry, e: Entry, f: FileMeta, g: FileMeta) returns (i: nat)
    requires Stored(st.version) && j.level + 1 < |st.version|
    requires forall h :: h in j.inputs1 ==> h in st.version[j.level + 1]
    requires f in j.inputs1 && d in f.entries && d.key.user == u && d.key.sequence <= j.snap
    requires g in st.version[j.level + 1] && g !in j.inputs1 && e in g.entries && Before(f, g)
    requires Newest(LeftAlone(st, j.level, j.inputs0, j.inputs1), u, j.snap, e) && e.key.kind.Value?
    ensures Straddles(st.version, j.level, j.inputs1, i, u)
  {
    hide Stored, LeftAlone;
    var files := st.version[j.level + 1];
    NextLevelFiles(st.version, j.level);
    var p: nat :| p < |files| && files[p] == f;
    var q: nat :| q < |files| && files[q] == g;
    EntryBounds(f, d);
    EntryBounds(g, e);
    SmallestFirst(f);
    SmallestFirst(g);
    assert f.largest.user == u == g.smallest.user;
    assert p < q by {
      assert q < p ==> Precedes(files[q].largest, files[p].smallest);
    }
    i := q - 1;
    if p < i {
      Between(files, p, i, q);
      if files[i] !in j.inputs1 {
        FirstIsOlder(st, j, u, d, e, f, files[i]);
        FirstEntry(files[i]);
        EntryBounds(files[i], files[i].entries[0]);
        SortedLevelNewer(files, i, q);
      }
    }
    FirstIsOlder(st, j, u, d, e, f, g);
    FirstEntry(g);
    if g.entries[0] != e {
      SameFileDistinct(g, g.entries[0], e);
      FirstIsNewest(g, e);
    }
  }

  /** What the invariant says of the next level. */
  lemma NextLevelFiles(v: Version, level: nat)
    requires Stored(v) && level + 1 < |v|
    ensures DisjointLevel(v[level + 1]) && forall f :: f in v[level + 1] ==> FileOk(f)
  {
    StoredIsOk(v);
  }

  /** A file between two files that meet in a user key holds only that key. */
  lemma Between(files: seq<FileMeta>, p: nat, i: nat, q: nat)
    requires DisjointLevel(files) && p < i < q < |files| && FileOk(files[i])
    requires files[p].largest.user == files[q].smallest.user
    ensures files[i].smallest.user == files[i].largest.user == files[q].smallest.user
  {
    SmallestFirst(files[i]);
    assert Precedes(files[p].largest, files[i].smallest) && Precedes(files[i].largest, files[q].smallest);
  }

  lemma FirstEntry(g: FileMeta)
    requires FileOk(g)
    ensures |g.entries| > 0 && g.entries[0] in g.entries && g.entries[0].key == g.smallest
  {
  }

  lemma FirstIsNewest(g: FileMeta, e: Entry)
    requires FileOk(g) && e in g.entries && e != g.entries[0] && e.key.user == g.smallest.user
    ensures e.key.sequence < g.entries[0].key.sequence
  {
    var k :| 0 <= k < |g.entries| && g.entries[k] == e;
    assert Precedes(g.entries[0].key, g.entries[k].key);
  }

  /** The first entry of a left-out file behind the deletion's file is visible, so it is no newer than the answer. */
  lemma FirstIsOlder(st: Store, j: Job, u: UserKey, d: Entry, e: Entry, f: FileMeta, g: FileMeta)
    requires j.level + 1 < |st.version| && g in st.version[j.level + 1] && g !in j.inputs1 && FileOk(f) && FileOk(g)
    requires d in f.entries && d.key.user == u && d.key.sequence <= j.snap && g.smallest.user == u && Before(f, g)
    requires Newest(LeftAlone(st, j.level, j.inputs0, j.inputs1), u, j.snap, e)
    ensures g.entries[0].key.user == u && g.entries[0].key.sequence <= e.key.sequence
  {
    EntryBounds(f, d);
    FirstEntry(g);
    assert Left(st.version, j.level, j.inputs0, j.inputs1, j.level + 1, g);
    RestIn(st.version, j.level, j.inputs0, j.inputs1, g.entries[0]);
  }

  /** Nothing above is visible: it would be newer than the deletion that answers. */
  lemma NothingAboveDeletion(st: Store, j: Job, input: seq<Entry>, u: UserKey, d: Entry)
    requires Inv(st) && st.job == Some(j) && Merged(input, j.inputs0 + j.inputs1) && d in input
    requires Newest(LeftAlone(st, j.level, j.inputs0, j.inputs1) + EntrySet(input), u, j.snap, d)
    ensures NothingAbove(st, j, u)
  {
    hide Stored, Faithful, MemoryOk, Merged, InputsOk, Selected, MemoryEntries;
    var all := LeftAlone(st, j.level, j.inputs0, j.inputs1) + EntrySet(input);
    forall x | x in MemoryEntries(st)
      ensures !Visible(x, u, j.snap)
    {
      MemoryIsNewer(st, j, input, d, x);
      assert x in all;
    }
    var f := InputFile(st, j, input, d);
    forall l: nat, g, x | l <= j.level && Left(st.version, j.level, j.inputs0, j.inputs1, l, g) && x in g.entries
      ensures !Visible(x, u, j.snap)
    {
      ShallowLeft(st, j, f, l, g);
      RestIn(st.version, j.level, j.inputs0, j.inputs1, x);
      assert x in all;
    }
  }

  lemma UncoveredIsExposed(st: Store, j: Job, input: seq<Entry>, u: UserKey)
    requires Inv(st) && st.job == Some(j) && Merged(input, j.inputs0 + j.inputs1)
    requires Uncovers(st.version, j.level, input, j.snap, LeftAlone(st, j.level, j.inputs0, j.inputs1), u)
    ensures Exposes(st, j, input, u)
  {
    hide Stored, Faithful, MemoryOk, Merged, InputsOk, Selected, LeftAlone, NothingAbove, BaseLevel, Straddles;
    JobInputsOk(st);
    var all := LeftAlone(st, j.level, j.inputs0, j.inputs1) + EntrySet(input);
    var d :| d in input && Newest(all, u, j.snap, d) && Obsolete(st.version, j.level, d, j.snap);
    assert Newest(EntrySet(input), u, j.snap, d);
    var e := LeftAnswer(st, j, input, u, d);
    var f, g := ValueIsNextLevel(st, j, input, d, e);
    InputsInLevel(st.version, j.level, j.inputs0, j.inputs1);
    var i := AnswerStraddles(st, j, u, d, e, f, g);
    NothingAboveDeletion(st, j, input, u, d);
  }

  lemma InputsInLevel(v: Version, level: nat, inputs0: seq<FileMeta>, inputs1: seq<FileMeta>)
    requires level + 1 < |v| && InputsOk(v, level, inputs0, inputs1)
    ensures forall f :: f in inputs1 ==> f in v[level + 1]
  {
  }

  // ---- a key that is exposed is uncovered ----

  /** A left-out next-level file that shares the user key two files meet in lies behind all inputs: the key is past
      the user keys of the compaction's own level. */
  lemma BehindInputs(st: Store, j: Job, i: nat, u: UserKey, g: FileMeta, x: Entry)
    requires Inv(st) && st.job == Some(j) && Straddles(st.version, j.level, j.inputs1, i, u)
    requires g in st.version[j.level + 1] && g !in j.inputs1 && x in g.entries && x.key.user == u
    ensures forall f :: f in j.inputs0 + j.inputs1 ==> Before(f, g)
  {
    hide Faithful, MemoryOk, Stored, Straddles, Selected, InputsOk;
    var files := st.version[j.level + 1];
    NextLevelFiles(st.version, j.level);
    JobInputsOk(st);
    var f := NotBefore(st, j, i, u, g, x);
    OutsideOne(files, j.inputs1, j.inputs0 + j.inputs1, f, g, st.version, j.level, j.inputs0);
  }

  lemma OutsideOne(files: seq<FileMeta>, inputs1: seq<FileMeta>, inputs: seq<FileMeta>, f: FileMeta, g: FileMeta,
                   v: Version, level: nat, inputs0: seq<FileMeta>)
    requires level + 1 < |v| && InputsOk(v, level, inputs0, inputs1) && files == v[level + 1]
    requires inputs == inputs0 + inputs1
    requires g in files && g !in inputs1 && f in inputs && !Before(g, f)
    ensures forall h :: h in inputs ==> Before(h, g)
  {
  }

  /** The first of the two files that meet in u is an input that g does not lie before. */
  lemma NotBefore(st: Store, j: Job, i: nat, u: UserKey, g: FileMeta, x: Entry) returns (f: FileMeta)
    requires Inv(st) && st.job == Some(j) && Straddles(st.version, j.level, j.inputs1, i, u)
    requires g in st.version[j.level + 1] && g !in j.inputs1 && x in g.entries && x.key.user == u
    ensures f in j.inputs0 + j.inputs1 && !Before(g, f)
  {
    hide Faithful, MemoryOk, Stored, Chosen, NoBoundary, Overlaps, NextLevelOverlap;
    var files := st.version[j.level + 1];
    f := files[i];
    NextLevelFiles(st.version, j.level);
    var lo, hi := RangeOf(st.version, j.level, j.inputs0, j.inputs1);
    assert f in files && files[i + 1] in files;
    PastRange(f, files[i + 1], g, x, lo, hi);
  }

  /** The next-level inputs are the files that touch one range. */
  lemma RangeOf(v: Version, level: nat, inputs0: seq<FileMeta>, inputs1: seq<FileMeta>)
    returns (lo: UserKey, hi: UserKey)
    requires level + 1 < |v| && NextLevelOverlap(v, level, inputs0, inputs1)
    ensures forall f :: f in v[level + 1] ==> (f in inputs1 <==> Overlaps(f, Some(lo), Some(hi)))
  {
    var smallest, largest :| IsRange(inputs0, smallest, largest)
      && inputs1 == Overlapping(v[level + 1], Some(smallest.user), Some(largest.user));
    OverlappingMembers(v[level + 1], Some(smallest.user), Some(largest.user));
    lo, hi := smallest.user, largest.user;
  }

  /** Of two files that meet in a user key, the first touches the range and the second does not: the range ends before
      that key, and a file with that key cannot lie before the first of them. */
  lemma PastRange(f: FileMeta, next: FileMeta, g: FileMeta, x: Entry, lo: UserKey, hi: UserKey)
    requires FileOk(f) && FileOk(next) && FileOk(g) && x in g.entries
    requires f.largest.user == next.smallest.user == x.key.user
    requires Overlaps(f, Some(lo), Some(hi)) && !Overlaps(next, Some(lo), Some(hi))
    ensures !Before(g, f)
  {
    SmallestFirst(next);
    EntryBounds(g, x);
  }

  /** What the data left alone holds of u that the snapshot sees is older than the deletion and no newer than the value
      the next level goes on with. */
  lemma LeftIsOlder(st: Store, j: Job, input: seq<Entry>, u: UserKey, d: Entry, i: nat, x: Entry)
    requires Inv(st) && st.job == Some(j) && Merged(input, j.inputs0 + j.inputs1) && d in input && d.key.user == u
    requires Obsolete(st.version, j.level, d, j.snap) && Straddles(st.version, j.level, j.inputs1, i, u)
    requires NothingAbove(st, j, u) && x in LeftAlone(st, j.level, j.inputs0, j.inputs1) && Visible(x, u, j.snap)
    ensures x.key.sequence < d.key.sequence
    ensures && j.level + 1 < |st.version| && i + 1 < |st.version[j.level + 1]|
            && st.version[j.level + 1][i + 1].entries != []
            && x.key.sequence <= st.version[j.level + 1][i + 1].entries[0].key.sequence
  {
    hide Stored, Faithful, MemoryOk, Selected, Merged, InputsOk, BaseLevel;
    RestIn(st.version, j.level, j.inputs0, j.inputs1, x);
    var l: nat, g :| Left(st.version, j.level, j.inputs0, j.inputs1, l, g) && x in g.entries;
    assert l > j.level by {
      assert l <= j.level ==> NoneVisible(EntrySet(g.entries), u, j.snap);
    }
    if l >= j.level + 2 {
      DeeperMisses(st.version, j.level, l, g, x, u);
    } else {
      var f := InputFile(st, j, input, d);
      BehindInputs(st, j, i, u, g, x);
      assert f in j.inputs0 + j.inputs1;
      OlderBehind(st.version, j.level, f, d, g, x);
      AtOrPast(st.version[j.level + 1], i, g, x, st.version, j.level);
    }
  }

  lemma OlderBehind(v: Version, level: nat, f: FileMeta, d: Entry, g: FileMeta, x: Entry)
    requires Stored(v) && level + 1 < |v| && (f in v[level] || f in v[level + 1]) && g in v[level + 1] && Before(f, g)
    requires d in f.entries && x in g.entries && d.key.user == x.key.user
    ensures x.key.sequence < d.key.sequence
  {
    EntryBounds(f, d);
    EntryBounds(g, x);
  }

  lemma AtOrPast(files: seq<FileMeta>, i: nat, g: FileMeta, x: Entry, v: Version, level: nat)
    requires Stored(v) && level + 1 < |v| && files == v[level + 1] && i + 1 < |files| && g in files
    requires Before(files[i], g)
    requires x in g.entries && x.key.user == files[i + 1].smallest.user
    ensures files[i + 1].entries != [] && x.key.sequence <= files[i + 1].entries[0].key.sequence
  {
    hide Stored;
    NextLevelFiles(v, level);
    var q: nat :| q < |files| && files[q] == g;
    SmallestFirst(files[i]);
    SmallestFirst(g);
    assert q > i by {
      assert q < i ==> Precedes(files[q].largest, files[i].smallest);
    }
    FirstEntry(files[i + 1]);
    EntryBounds(g, x);
    if q > i + 1 {
      SortedLevelNewer(files, i + 1, q);
    }
  }

  lemma ExposedIsUncovered(st: Store, j: Job, input: seq<Entry>, u: UserKey)
    requires Inv(st) && st.job == Some(j) && Merged(input, j.inputs0 + j.inputs1) && Exposes(st, j, input, u)
    ensures Uncovers(st.version, j.level, input, j.snap, LeftAlone(st, j.level, j.inputs0, j.inputs1), u)
  {
    hide Stored, Faithful, MemoryOk, Merged, InputsOk, Selected, LeftAlone, NothingAbove, BaseLevel, Live;
    var rest := LeftAlone(st, j.level, j.inputs0, j.inputs1);
    var d :| Newest(EntrySet(input), u, j.snap, d) && Obsolete(st.version, j.level, d, j.snap);
    var i: nat :| Straddles(st.version, j.level, j.inputs1, i, u);
    var e := st.version[j.level + 1][i + 1].entries[0];
    NextValueIsLeft(st, j, input, d, i, u);
    forall x | x in rest && Visible(x, u, j.snap)
      ensures x.key.sequence < d.key.sequence && x.key.sequence <= e.key.sequence
    {
      LeftIsOlder(st, j, input, u, d, i, x);
    }
    assert Newest(rest + EntrySet(input), u, j.snap, d);
    assert Newest(rest, u, j.snap, e);
    JobInputsOk(st);
    LiveParts(st, j, input);
    LiveDistinct(st);
    assert DistinctSeq(rest);
    ReadIsNewest(rest, u, j.snap, e);
  }

  /** The value the next level goes on with is left alone and visible. */
  lemma NextValueIsLeft(st: Store, j: Job, input: seq<Entry>, d: Entry, i: nat, u: UserKey)
    requires Inv(st) && st.job == Some(j) && Merged(input, j.inputs0 + j.inputs1) && d in input && Visible(d, u, j.snap)
    requires Straddles(st.version, j.level, j.inputs1, i, u)
    ensures && j.level + 1 < |st.version| && i + 1 < |st.version[j.level + 1]|
            && st.version[j.level + 1][i + 1].entries != []
            && st.version[j.level + 1][i + 1].entries[0] in LeftAlone(st, j.level, j.inputs0, j.inputs1)
            && Visible(st.version[j.level + 1][i + 1].entries[0], u, j.snap)
  {
    hide Stored, Faithful, MemoryOk, Merged, InputsOk, Selected;
    NextLevelFiles(st.version, j.level);
    var g := st.version[j.level + 1][i + 1];
    FirstEntry(g);
    BehindInputs(st, j, i, u, g, g.entries[0]);
    var f := InputFile(st, j, input, d);
    assert f in j.inputs0 + j.inputs1;
    OlderBehind(st.version, j.level, f, d, g, g.entries[0]);
    assert Left(st.version, j.level, j.inputs0, j.inputs1, j.level + 1, g);
    RestIn(st.version, j.level, j.inputs0, j.inputs1, g.entries[0]);
  }

  /** In every state that satisfies the invariant, a compaction brings a key back exactly if it exposes it: the
      condition speaks of files and of the inputs' newest entry only. */
  lemma UncoversIffExposes(st: Store, j: Job, input: seq<Entry>, u: UserKey)
    requires Inv(st) && st.job == Some(j) && Merged(input, j.inputs0 + j.inputs1)
    ensures Uncovers(st.version, j.level, input, j.snap, LeftAlone(st, j.level, j.inputs0, j.inputs1), u)
            <==> Exposes(st, j, input, u)
  {
    hide Inv, Uncovers, Exposes, Merged, LeftAlone;
    if Exposes(st, j, input, u) {
      ExposedIsUncovered(st, j, input, u);
    } else if Uncovers(st.version, j.level, input, j.snap, LeftAlone(st, j.level, j.inputs0, j.inputs1), u) {
      UncoveredIsExposed(st, j, input, u);
    }
  }

  /** If no left-out next-level file starts with a user key an input of that level ends with, nothing is exposed. */
  lemma ApartNeverExposes(st: Store, j: Job, input: seq<Entry>, u: UserKey)
    requires j.level + 1 < |st.version| && NextLevelApart(st.version, j.level, j.inputs1)
    ensures !Exposes(st, j, input, u)
  {
    forall i: nat
      ensures !Straddles(st.version, j.level, j.inputs1, i, u)
    {
      if i + 1 < |st.version[j.level + 1]| {
        assert st.version[j.level + 1][i + 1] in st.version[j.level + 1];
      }
    }
  }
}
