/** Installing the results of a flush, a trivial move or a compaction keeps the version invariant. */
module Installs {
  import opened Basics
  import opened InternalKeys
  import opened Versions
  import opened Inputs
  import opened Builders
  import opened Compactions

  /** A version in the builder's order: sorted lists whose files agree pairwise. */
  ghost predicate Stored(v: Version) {
    && |v| == NUM_LEVELS
    && (forall l :: 0 <= l < |v| ==> Sorted(v[l]))
    && SoundFiles(v) && SoundLevels(v) && LevelsByAge(v)
  }

  ghost predicate SoundFiles(v: Version) {
    forall l, f :: 0 <= l < |v| && f in v[l] ==> FileOk(f)
  }

  ghost predicate SoundLevels(v: Version) {
    forall l, f, g :: 0 <= l < |v| && f in v[l] && g in v[l] && f != g ==> Neighbours(l, f, g)
  }

  ghost predicate LevelsByAge(v: Version) {
    forall a, b, f, g :: 0 <= a < b < |v| && f in v[a] && g in v[b] ==> NewerThan(f, g) && f.number != g.number
  }

  /** What two different files of one level owe each other. */
  ghost predicate Neighbours(level: nat, f: FileMeta, g: FileMeta) {
    && f.number != g.number
    && (level == 0 && f.number > g.number ==> NewerThan(f, g))
    && (level > 0 ==> Before(f, g) || Before(g, f))
  }

  /** Before is what the sort by smallest key shows for disjoint files. */
  lemma SortedIsBefore(f: FileMeta, g: FileMeta)
    requires FileOk(f) && FileOk(g) && BySmallest(f, g) && (Before(f, g) || Before(g, f))
    ensures Before(f, g)
  {
    SmallestFirst(f);
    SmallestFirst(g);
  }

  /** The stored form is exactly the reads' invariant plus level 0 in the builder's order. */
  lemma StoredIsOk(v: Version)
    ensures Stored(v) <==> VersionOk(v) && Sorted(v[0])
  {
    if Stored(v) {
      StoredGivesOk(v);
    }
    if VersionOk(v) && Sorted(v[0]) {
      OkGivesStored(v);
    }
  }

  lemma StoredGivesOk(v: Version)
    requires Stored(v)
    ensures VersionOk(v)
  {
    forall l | 0 <= l < |v|
      ensures DistinctNumbers(v[l]) && (l > 0 ==> DisjointLevel(v[l]))
    {
      StoredLevel(v[l], l);
    }
    assert NewestByNumber(v[0]) by {
      forall i, j | 0 <= i < |v[0]| && 0 <= j < |v[0]| && v[0][i].number > v[0][j].number
        ensures NewerThan(v[0][i], v[0][j])
      {
        assert Neighbours(0, v[0][i], v[0][j]);
      }
    }
    assert FilesOk(v);
    LevelsByAgeGives(v);
  }

  lemma LevelsByAgeGives(v: Version)
    requires LevelsByAge(v)
    ensures NewestByLevel(v) && NumbersApart(v)
  {
  }

  lemma StoredLevel(files: seq<FileMeta>, level: nat)
    requires Sorted(files) && forall f :: f in files ==> FileOk(f)
    requires forall f, g :: f in files && g in files && f != g ==> Neighbours(level, f, g)
    ensures DistinctNumbers(files) && (level > 0 ==> DisjointLevel(files))
  {
    forall i, j | 0 <= i < j < |files|
      ensures files[i].number != files[j].number && (level > 0 ==> Precedes(files[i].largest, files[j].smallest))
    {
      assert BySmallest(files[i], files[j]);
      assert Neighbours(level, files[i], files[j]);
      if level > 0 {
        SortedIsBefore(files[i], files[j]);
      }
    }
  }

  lemma OkGivesStored(v: Version)
    requires VersionOk(v) && Sorted(v[0])
    ensures Stored(v)
  {
    forall l | 0 <= l < |v|
      ensures Sorted(v[l])
      ensures forall f, g :: f in v[l] && g in v[l] && f != g ==> Neighbours(l, f, g)
    {
      OkLevel(v[l], l);
    }
    assert SoundFiles(v);
    AgeGivesLevels(v);
  }

  lemma AgeGivesLevels(v: Version)
    requires NewestByLevel(v) && NumbersApart(v)
    ensures LevelsByAge(v)
  {
  }

  lemma OkLevel(files: seq<FileMeta>, level: nat)
    requires forall i :: 0 <= i < |files| ==> FileOk(files[i])
    requires DistinctNumbers(files) && (level > 0 ==> DisjointLevel(files))
    requires level == 0 ==> Sorted(files) && NewestByNumber(files)
    ensures Sorted(files)
    ensures forall f, g :: f in files && g in files && f != g ==> Neighbours(level, f, g)
  {
    forall i, j | 0 <= i < j < |files| && level > 0
      ensures BySmallest(files[i], files[j])
    {
      SmallestFirst(files[i]);
    }
    forall f, g | f in files && g in files && f != g
      ensures Neighbours(level, f, g)
    {
      var i :| 0 <= i < |files| && files[i] == f;
      var j :| 0 <= j < |files| && files[j] == g;
    }
  }

  // ---- the edits ----

  function AddAt(level: nat, files: seq<FileMeta>): (r: seq<(nat, FileMeta)>)
    ensures |r| == |files| && forall i :: 0 <= i < |r| ==> r[i] == (level, files[i])
  {
    seq(|files|, i requires 0 <= i < |files| => (level, files[i]))
  }

  /** Delete the inputs where they are, add the outputs one level down. */
  function CompactionEdit(level: nat, inputs0: seq<FileMeta>, inputs1: seq<FileMeta>, outputs: seq<FileMeta>): Edit {
    Edit((set f | f in inputs0 :: (level, f.number)) + (set f | f in inputs1 :: (level + 1, f.number)),
         AddAt(level + 1, outputs))
  }

  function AddEdit(level: nat, f: FileMeta): Edit {
    Edit({}, AddAt(level, [f]))
  }

  lemma AddAtMembers(level: nat, files: seq<FileMeta>, l: nat, f: FileMeta)
    ensures (l, f) in AddAt(level, files) <==> l == level && f in files
  {
    if l == level && f in files {
      var i :| 0 <= i < |files| && files[i] == f;
      assert AddAt(level, files)[i] == (l, f);
    }
  }

  /** An edit that adds files with new numbers: the level afterwards, as a set, and still sorted. */
  lemma EditedLevel(v: Version, edit: Edit, l: nat, level: nat, outputs: seq<FileMeta>)
    requires |v| == NUM_LEVELS && l < NUM_LEVELS && edit.added == AddAt(level, outputs)
    requires Sorted(v[l]) && DistinctNumbers(outputs)
    requires l == level ==> forall f, g :: f in v[l] && g in outputs ==> f.number != g.number
    ensures Sorted(LogAndApply(v, edit)[l])
    ensures forall f :: f in LogAndApply(v, edit)[l] <==>
              || (f in v[l] && f.number !in DeletedAt(edit, l))
              || (l == level && f in outputs && f.number !in DeletedAfter(DeletedAt(edit, l), edit.added, l))
  {
    var added, deleted := AddedAfter([], edit.added, l), DeletedAfter(DeletedAt(edit, l), edit.added, l);
    AddedAfterMembers([], edit.added, l);
    forall f
      ensures f in added <==> l == level && f in outputs
    {
      AddAtMembers(level, outputs, l, f);
    }
    SaveSorted(v[l], added, deleted);
    forall f
      ensures f in SaveLevel(v[l], added, deleted) <==>
              (f in v[l] && f.number !in DeletedAt(edit, l)) || (l == level && f in outputs && f.number !in deleted)
    {
      SaveMembers(v[l], added, deleted, f);
      DeletedAfterMembers(DeletedAt(edit, l), edit.added, l, f.number);
      if f in v[l] {
        forall a | a in edit.added && a.0 == l
          ensures a.1.number != f.number
        {
          AddAtMembers(level, outputs, l, a.1);
        }
      }
    }
  }

  lemma NotDeletedWhenAdded(deleted: set<nat>, level: nat, outputs: seq<FileMeta>, f: FileMeta)
    requires f in outputs
    ensures f.number !in DeletedAfter(deleted, AddAt(level, outputs), level)
  {
    DeletedAfterMembers(deleted, AddAt(level, outputs), level, f.number);
    AddAtMembers(level, outputs, level, f);
  }

  // ---- compaction and trivial move ----

  /** Outputs: sound tables, mutually disjoint, made of input entries, with numbers the version does not use
      (a moved file keeps its own). */
  ghost predicate OutputsOk(v: Version, level: nat, inputs0: seq<FileMeta>, inputs1: seq<FileMeta>,
                            outputs: seq<FileMeta>) {
    && DistinctNumbers(outputs)
    && (forall o :: o in outputs ==> FileOk(o))
    && (forall o, o' :: o in outputs && o' in outputs && o != o' ==> Before(o, o') || Before(o', o))
    && (forall o, e :: o in outputs && e in o.entries ==> exists f :: f in inputs0 + inputs1 && e in f.entries)
    && (forall o, l, g :: o in outputs && 0 <= l < |v| && g in v[l] && g.number == o.number ==>
       l == level && g in inputs0)
  }

  /** The inputs as selection leaves them. */
  ghost predicate InputsOk(v: Version, level: nat, inputs0: seq<FileMeta>, inputs1: seq<FileMeta>)
    requires level + 1 < |v|
  {
    && (forall f :: f in inputs0 ==> f in v[level]) && (forall f :: f in inputs1 ==> f in v[level + 1])
    && ClosedAtLevel(v[level], inputs0)
    && OutsideInputs(v[level + 1], inputs1, inputs0 + inputs1)
  }

  lemma SelectedIsInputsOk(v: Version, level: nat, inputs0: seq<FileMeta>, inputs1: seq<FileMeta>)
    requires VersionOk(v) && level + 1 < |v| && Selected(v, level, inputs0, inputs1)
    ensures InputsOk(v, level, inputs0, inputs1)
  {
    ChosenIsClosed(v, level, inputs0);
    ChosenInLevel(v, level, inputs0);
    var smallest, largest :| IsRange(inputs0, smallest, largest)
      && inputs1 == Overlapping(v[level + 1], Some(smallest.user), Some(largest.user));
    OverlappingMembers(v[level + 1], Some(smallest.user), Some(largest.user));
    NextLevelOutside(v, level, inputs0, inputs1, smallest, largest);
  }

  /** Which files each level holds after the compaction edit. */
  ghost predicate Replaced(v: Version, level: nat, inputs0: seq<FileMeta>, inputs1: seq<FileMeta>,
                           outputs: seq<FileMeta>, v': Version)
  {
    && |v| == |v'| == NUM_LEVELS && level + 1 < NUM_LEVELS
    && (forall l :: 0 <= l < NUM_LEVELS ==> Sorted(v'[l]))
    && (forall f :: f in v'[level] <==> f in v[level] && f !in inputs0)
    && (forall f :: f in v'[level + 1] <==> (f in v[level + 1] && f !in inputs1) || f in outputs)
    && (forall l, f :: 0 <= l < NUM_LEVELS && l != level && l != level + 1 ==> (f in v'[l] <==> f in v[l]))
  }

  lemma DeletedByEdit(v: Version, level: nat, inputs0: seq<FileMeta>, inputs1: seq<FileMeta>, outputs: seq<FileMeta>,
                      l: nat, f: FileMeta)
    requires Stored(v) && level + 1 < |v| && l < |v| && f in v[l]
    requires forall g :: g in inputs0 ==> g in v[level]
    requires forall g :: g in inputs1 ==> g in v[level + 1]
    ensures f.number in DeletedAt(CompactionEdit(level, inputs0, inputs1, outputs), l)
            <==> (l == level && f in inputs0) || (l == level + 1 && f in inputs1)
  {
    var edit := CompactionEdit(level, inputs0, inputs1, outputs);
    assert f.number in DeletedAt(edit, l) <==> (l, f.number) in edit.deleted;
    if l == level {
      forall g | g in inputs0 && g.number == f.number
        ensures g == f
      {
        assert g != f ==> Neighbours(l, g, f);
      }
    }
    if l == level + 1 {
      forall g | g in inputs1 && g.number == f.number
        ensures g == f
      {
        assert g != f ==> Neighbours(l, g, f);
      }
    }
  }

  lemma CompactionReplaces(v: Version, level: nat, inputs0: seq<FileMeta>, inputs1: seq<FileMeta>,
                           outputs: seq<FileMeta>)
    requires Stored(v) && level + 1 < |v|
    requires forall f :: f in inputs0 ==> f in v[level]
    requires forall f :: f in inputs1 ==> f in v[level + 1]
    requires OutputsOk(v, level, inputs0, inputs1, outputs)
    ensures Replaced(v, level, inputs0, inputs1, outputs,
              LogAndApply(v, CompactionEdit(level, inputs0, inputs1, outputs)))
  {
    hide OutputsOk, Sorted, SoundFiles, SoundLevels, LevelsByAge;
    forall l | 0 <= l < NUM_LEVELS
      ensures var v' := LogAndApply(v, CompactionEdit(level, inputs0, inputs1, outputs));
              && Sorted(v'[l])
              && forall f :: f in v'[l] <==>
                   (f in v[l] && !(l == level && f in inputs0) && !(l == level + 1 && f in inputs1))
                   || (l == level + 1 && f in outputs)
    {
      LevelReplaced(v, level, inputs0, inputs1, outputs, l);
    }
  }

  lemma LevelReplaced(v: Version, level: nat, inputs0: seq<FileMeta>, inputs1: seq<FileMeta>, outputs: seq<FileMeta>,
                      l: nat)
    requires Stored(v) && level + 1 < |v| && l < |v|
    requires forall f :: f in inputs0 ==> f in v[level]
    requires forall f :: f in inputs1 ==> f in v[level + 1]
    requires OutputsOk(v, level, inputs0, inputs1, outputs)
    ensures var v' := LogAndApply(v, CompactionEdit(level, inputs0, inputs1, outputs));
            && Sorted(v'[l])
            && forall f :: f in v'[l] <==>
                 (f in v[l] && !(l == level && f in inputs0) && !(l == level + 1 && f in inputs1))
                 || (l == level + 1 && f in outputs)
  {
    var edit := CompactionEdit(level, inputs0, inputs1, outputs);
    var v' := LogAndApply(v, edit);
    EditedLevel(v, edit, l, level + 1, outputs);
    forall f
      ensures f in v'[l] <==> (f in v[l] && !(l == level && f in inputs0) && !(l == level + 1 && f in inputs1))
                              || (l == level + 1 && f in outputs)
    {
      if f in v[l] {
        DeletedByEdit(v, level, inputs0, inputs1, outputs, l, f);
      }
      if f in outputs && l == level + 1 {
        NotDeletedWhenAdded(DeletedAt(edit, l), level + 1, outputs, f);
      }
    }
  }

  /** An output sits beside a left-out file exactly as all the inputs do. */
  lemma OutputBeside(inputs: seq<FileMeta>, o: FileMeta, g: FileMeta)
    requires (forall f :: f in inputs ==> Before(f, g)) || (forall f :: f in inputs ==> Before(g, f))
    requires FileOk(o) && FileOk(g) && forall f :: f in inputs ==> FileOk(f)
    requires forall e :: e in o.entries ==> exists f :: f in inputs && e in f.entries
    ensures Before(o, g) || Before(g, o)
  {
    var first, last := o.entries[0], o.entries[|o.entries| - 1];
    assert first in o.entries && last in o.entries;
    var f :| f in inputs && first in f.entries;
    var f' :| f' in inputs && last in f'.entries;
    EntryBounds(f, first);
    EntryBounds(f', last);
  }

  lemma OutputNewer(inputs: seq<FileMeta>, o: FileMeta, g: FileMeta)
    requires forall e :: e in o.entries ==> exists f :: f in inputs && e in f.entries
    ensures (forall f :: f in inputs ==> NewerThan(f, g)) ==> NewerThan(o, g)
    ensures (forall f :: f in inputs ==> NewerThan(g, f)) ==> NewerThan(g, o)
  {
    forall e, x | e in o.entries && x in g.entries && e.key.user == x.key.user
      ensures (forall f :: f in inputs ==> NewerThan(f, g)) ==> e.key.sequence > x.key.sequence
      ensures (forall f :: f in inputs ==> NewerThan(g, f)) ==> x.key.sequence > e.key.sequence
    {
      var f :| f in inputs && e in f.entries;
    }
  }

  /** A compaction or a trivial move keeps everything reads rely on. */
  lemma InstallKeepsStored(v: Version, level: nat, inputs0: seq<FileMeta>, inputs1: seq<FileMeta>,
                           outputs: seq<FileMeta>)
    requires Stored(v) && level + 1 < |v| && InputsOk(v, level, inputs0, inputs1)
    requires OutputsOk(v, level, inputs0, inputs1, outputs)
    ensures Stored(LogAndApply(v, CompactionEdit(level, inputs0, inputs1, outputs)))
    ensures Replaced(v, level, inputs0, inputs1, outputs,
              LogAndApply(v, CompactionEdit(level, inputs0, inputs1, outputs)))
  {
    var v' := LogAndApply(v, CompactionEdit(level, inputs0, inputs1, outputs));
    CompactionReplaces(v, level, inputs0, inputs1, outputs);
    ReplacedSoundFiles(v, level, inputs0, inputs1, outputs, v');
    ReplacedSoundLevels(v, level, inputs0, inputs1, outputs, v');
    ReplacedByAge(v, level, inputs0, inputs1, outputs, v');
  }

  lemma ReplacedByAge(v: Version, level: nat, inputs0: seq<FileMeta>, inputs1: seq<FileMeta>, outputs: seq<FileMeta>,
                      v': Version)
    requires Stored(v) && level + 1 < |v| && InputsOk(v, level, inputs0, inputs1)
    requires OutputsOk(v, level, inputs0, inputs1, outputs) && Replaced(v, level, inputs0, inputs1, outputs, v')
    ensures LevelsByAge(v')
  {
    forall a, b, f, g | 0 <= a < b < |v'| && f in v'[a] && g in v'[b]
      ensures NewerThan(f, g) && f.number != g.number
    {
      AcrossLevels(v, level, inputs0, inputs1, outputs, v', a, b, f, g);
    }
  }

  lemma ReplacedSoundFiles(v: Version, level: nat, inputs0: seq<FileMeta>, inputs1: seq<FileMeta>,
                           outputs: seq<FileMeta>, v': Version)
    requires SoundFiles(v) && OutputsOk(v, level, inputs0, inputs1, outputs)
    requires Replaced(v, level, inputs0, inputs1, outputs, v')
    ensures SoundFiles(v')
  {
    forall l, f | 0 <= l < |v'| && f in v'[l]
      ensures FileOk(f)
    {
      assert f in v[l] || f in outputs;
    }
  }

  lemma ReplacedSoundLevels(v: Version, level: nat, inputs0: seq<FileMeta>, inputs1: seq<FileMeta>,
                            outputs: seq<FileMeta>, v': Version)
    requires Stored(v) && level + 1 < |v| && InputsOk(v, level, inputs0, inputs1)
    requires OutputsOk(v, level, inputs0, inputs1, outputs) && Replaced(v, level, inputs0, inputs1, outputs, v')
    ensures SoundLevels(v')
  {
    forall l, f, g | 0 <= l < |v'| && f in v'[l] && g in v'[l] && f != g
      ensures Neighbours(l, f, g)
    {
      if f in v[l] && g in v[l] {
        assert Neighbours(l, f, g);
      } else {
        assert l == level + 1;
        NewNeighbours(v, level, inputs0, inputs1, outputs, f, g);
      }
    }
  }

  lemma AcrossLevels(v: Version, level: nat, inputs0: seq<FileMeta>, inputs1: seq<FileMeta>, outputs: seq<FileMeta>,
                     v': Version, a: nat, b: nat, f: FileMeta, g: FileMeta)
    requires Stored(v) && level + 1 < |v| && InputsOk(v, level, inputs0, inputs1)
    requires OutputsOk(v, level, inputs0, inputs1, outputs) && Replaced(v, level, inputs0, inputs1, outputs, v')
    requires a < b < |v| && f in v'[a] && g in v'[b]
    ensures NewerThan(f, g) && f.number != g.number
  {
    if f in v[a] && g in v[b] {
    } else if f in v[a] {
      forall h | h in inputs0 + inputs1
        ensures NewerThan(f, h)
      {
      }
      OutputNewer(inputs0 + inputs1, g, f);
    } else {
      forall h | h in inputs0 + inputs1
        ensures NewerThan(h, g)
      {
      }
      OutputNewer(inputs0 + inputs1, f, g);
    }
  }

  lemma NewNeighbours(v: Version, level: nat, inputs0: seq<FileMeta>, inputs1: seq<FileMeta>, outputs: seq<FileMeta>,
                      f: FileMeta, g: FileMeta)
    requires Stored(v) && level + 1 < |v| && InputsOk(v, level, inputs0, inputs1)
    requires OutputsOk(v, level, inputs0, inputs1, outputs) && f != g
    requires (f in v[level + 1] && f !in inputs1) || f in outputs
    requires (g in v[level + 1] && g !in inputs1) || g in outputs
    requires f in outputs || g in outputs
    ensures Neighbours(level + 1, f, g)
  {
    if f in outputs && g in outputs {
      var i :| 0 <= i < |outputs| && outputs[i] == f;
      var j :| 0 <= j < |outputs| && outputs[j] == g;
    } else if f in outputs {
      OutputBeside(inputs0 + inputs1, f, g);
    } else {
      OutputBeside(inputs0 + inputs1, g, f);
    }
  }

  /** A trivial move's single input is its single output. */
  lemma MoveOutputsOk(v: Version, level: nat, f: FileMeta)
    requires Stored(v) && level + 1 < |v| && f in v[level]
    ensures OutputsOk(v, level, [f], [], [f])
  {
    forall l, g | 0 <= l < |v| && g in v[l] && g.number == f.number
      ensures l == level && g == f
    {
      assert l == level && g != f ==> Neighbours(l, g, f);
    }
    assert forall e :: e in f.entries ==> f in [f] + [] && e in f.entries;
  }

  // ---- flush ----

  ghost predicate NewerThanVersion(f: FileMeta, v: Version) {
    forall l, g :: 0 <= l < |v| && g in v[l] ==> NewerThan(f, g) && f.number > g.number
  }

  /** The flushed file is level 0's newest, or lies apart from every file at its level and above. */
  ghost predicate FlushFits(v: Version, level: nat, f: FileMeta) {
    && level < |v| && FileOk(f) && NewerThanVersion(f, v)
    && (level > 0 ==> forall l :: 0 <= l <= level ==> !OverlapsLevel(v[l], f.smallest.user, f.largest.user))
  }

  lemma FlushApart(v: Version, level: nat, f: FileMeta, l: nat, g: FileMeta)
    requires FlushFits(v, level, f) && l <= level && level > 0 && g in v[l] && FileOk(g)
    ensures NewerThan(g, f) && (Before(f, g) || Before(g, f))
  {
    var i :| 0 <= i < |v[l]| && v[l][i] == g;
    assert !Overlaps(v[l][i], Some(f.smallest.user), Some(f.largest.user));
    ApartByUser(g, f);
  }

  ghost predicate Flushed(v: Version, level: nat, f: FileMeta, v': Version) {
    && |v'| == |v| == NUM_LEVELS
    && (forall l :: 0 <= l < NUM_LEVELS ==> Sorted(v'[l]))
    && (forall l, g :: 0 <= l < NUM_LEVELS ==> (g in v'[l] <==> g in v[l] || (l == level && g == f)))
  }

  lemma FlushAdds(v: Version, level: nat, f: FileMeta)
    requires Stored(v) && FlushFits(v, level, f)
    ensures Flushed(v, level, f, LogAndApply(v, AddEdit(level, f)))
  {
    var edit := AddEdit(level, f);
    forall l | 0 <= l < |v|
      ensures Sorted(LogAndApply(v, edit)[l])
      ensures forall g :: g in LogAndApply(v, edit)[l] <==> g in v[l] || (l == level && g == f)
    {
      EditedLevel(v, edit, l, level, [f]);
      assert DeletedAt(edit, l) == {};
      if l == level {
        NotDeletedWhenAdded(DeletedAt(edit, l), level, [f], f);
      }
    }
  }

  /** A flushed memtable, put at level 0 or deeper past levels it does not touch, keeps the invariant. */
  lemma FlushKeepsStored(v: Version, level: nat, f: FileMeta)
    requires Stored(v) && FlushFits(v, level, f)
    ensures Stored(LogAndApply(v, AddEdit(level, f)))
    ensures Flushed(v, level, f, LogAndApply(v, AddEdit(level, f)))
  {
    var v' := LogAndApply(v, AddEdit(level, f));
    FlushAdds(v, level, f);
    FlushedSound(v, level, f, v');
    FlushedByAge(v, level, f, v');
  }

  lemma FlushedSound(v: Version, level: nat, f: FileMeta, v': Version)
    requires Stored(v) && FlushFits(v, level, f) && Flushed(v, level, f, v')
    ensures SoundFiles(v') && SoundLevels(v')
  {
    forall l, g, h | 0 <= l < |v'| && g in v'[l] && h in v'[l] && g != h
      ensures Neighbours(l, g, h)
    {
      FlushNeighbours(v, level, f, l, g, h);
    }
  }

  lemma FlushedByAge(v: Version, level: nat, f: FileMeta, v': Version)
    requires Stored(v) && FlushFits(v, level, f) && Flushed(v, level, f, v')
    ensures LevelsByAge(v')
  {
    forall a, b, g, h | 0 <= a < b < |v'| && g in v'[a] && h in v'[b]
      ensures NewerThan(g, h) && g.number != h.number
    {
      FlushAge(v, level, f, a, b, g, h);
    }
  }

  lemma FlushNeighbours(v: Version, level: nat, f: FileMeta, l: nat, g: FileMeta, h: FileMeta)
    requires Stored(v) && FlushFits(v, level, f) && l < |v| && g != h
    requires g in v[l] || (l == level && g == f)
    requires h in v[l] || (l == level && h == f)
    ensures Neighbours(l, g, h)
  {
    if g in v[l] && h in v[l] {
    } else if l > 0 {
      FlushApart(v, level, f, l, if g in v[l] then g else h);
    }
  }

  lemma FlushAge(v: Version, level: nat, f: FileMeta, a: nat, b: nat, g: FileMeta, h: FileMeta)
    requires Stored(v) && FlushFits(v, level, f) && a < b < |v|
    requires g in v[a] || (a == level && g == f)
    requires h in v[b] || (b == level && h == f)
    ensures NewerThan(g, h) && g.number != h.number
  {
    if h !in v[b] {
      FlushApart(v, level, f, a, g);
    }
  }

  lemma ApartByUser(g: FileMeta, h: FileMeta)
    requires FileOk(g) && FileOk(h) && (h.largest.user < g.smallest.user || g.largest.user < h.smallest.user)
    ensures NewerThan(g, h)
  {
    forall e, x | e in g.entries && x in h.entries
      ensures e.key.user != x.key.user
    {
      EntryBounds(g, e);
      EntryBounds(h, x);
    }
  }
}
