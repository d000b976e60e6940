/** A run from the empty store to a compaction that brings a deleted key back. */
module DeletedKeys {
  import opened Basics
  import opened InternalKeys
  import opened Versions
  import opened Inputs
  import opened Builders
  import opened Compactions
  import opened Installs
  import opened Stores
  import opened StoreRuns

  ghost predicate Reached(st: Store) {
    exists run :: Run(run) && run[|run| - 1] == st
  }

  lemma ReachNext(st: Store, st': Store)
    requires Reached(st) && Next(st, st')
    ensures Reached(st')
  {
    hide Next, Init;
    var run :| Run(run) && run[|run| - 1] == st;
    var longer := run + [st'];
    forall i | 0 <= i < |longer| - 1
      ensures Next(longer[i], longer[i + 1])
    {
      assert i < |run| - 1 ==> longer[i + 1] == run[i + 1];
    }
    assert Run(longer);
  }

  lemma ReachOther(st: Store, st': Store)
    requires Reached(st) && OtherStep(st, st')
    ensures Reached(st')
  {
    hide Reached, OtherStep;
    ReachNext(st, st');
  }

  lemma ReachedInv(st: Store)
    requires Reached(st)
    ensures Inv(st)
  {
    hide Inv, Next, Init;
    var run :| Run(run) && run[|run| - 1] == st;
    RunInv(run, |run| - 1);
  }

  // ---- the entries, the tables and the versions ----

  const BACK: Entry := Entry(InternalKey(5.0, 1, Value), "back")
  const OLD: Entry := Entry(InternalKey(4.0, 2, Value), "old")
  const GONE: Entry := Entry(InternalKey(5.0, 3, Deletion), "")
  const FRESH: Entry := Entry(InternalKey(4.0, 4, Value), "new")

  const WHOLE: FileMeta := TableOf(2, 1, [OLD, GONE, BACK])
  const HEAD: FileMeta := TableOf(3, 1, [OLD, GONE])
  const TAIL: FileMeta := TableOf(4, 1, [BACK])
  const NEW: FileMeta := TableOf(5, 1, [FRESH])
  const OUT: FileMeta := TableOf(6, 1, [FRESH])

  /** A version with these files at levels 2 and 3 and none elsewhere. */
  function LowerLevels(files: seq<FileMeta>, below: seq<FileMeta>): (v: Version)
    ensures |v| == NUM_LEVELS
  {
    [[], [], files, below, [], [], []]
  }

  // ---- the states ----

  const EMPTY: Store := Store([], None, EmptyVersion, 0, [], 2, None, {})
  /** Key 5.0 is written, and a snapshot taken. */
  const PUT: Store := Store([BACK], None, EmptyVersion, 1, [], 2, None, {BACK})
  const HELD: Store := PUT.(snapshots := [1])
  /** One batch writes key 4.0 and deletes key 5.0; a flush puts all three entries into one table. */
  const DELETED: Store := HELD.(mem := [OLD, GONE, BACK], lastSequence := 3, written := {BACK, OLD, GONE})
  const FULL: Store := DELETED.(mem := [], imm := Some([OLD, GONE, BACK]))
  const FLUSHED: Store := FULL.(imm := None, version := LowerLevels([WHOLE], []), nextFile := 3)
  /** A manual compaction keeps the deletion and the value, because of the snapshot, and cuts its output between
      them. */
  const CUTTING: Store := FLUSHED.(job := Some(Job(2, [WHOLE], [], 1)))
  const CUT: Store := FLUSHED.(version := LowerLevels([], [HEAD, TAIL]), nextFile := 5)
  /** The snapshot is released, key 4.0 is written again and flushed. */
  const RELEASED: Store := CUT.(snapshots := [])
  const AGAIN: Store := RELEASED.(mem := [FRESH], lastSequence := 4, written := {BACK, OLD, GONE, FRESH})
  const FULL_AGAIN: Store := AGAIN.(mem := [], imm := Some([FRESH]))
  const SPLIT: Store := FULL_AGAIN.(imm := None, version := LowerLevels([NEW], [HEAD, TAIL]), nextFile := 6)
  /** The compaction of the new table takes only the first of the two tables below. */
  const JOINING: Store := SPLIT.(job := Some(Job(2, [NEW], [HEAD], 4)))
  const JOINED: Store := SPLIT.(version := LowerLevels([], [OUT, TAIL]), nextFile := 7)

  // ---- writing and flushing ----

  lemma Writes()
    ensures OtherStep(EMPTY, PUT) && OtherStep(PUT, HELD) && OtherStep(HELD, DELETED) && OtherStep(DELETED, FULL)
  {
    hide FlushStep, MoveStep, BeginStep;
    assert WriteStep(EMPTY, PUT, [Put(5.0, "back")]) by {
      BatchOf([Put(5.0, "back")], 0, {BACK});
    }
    assert TakeSnapshotStep(PUT, HELD);
    assert WriteStep(HELD, DELETED, [Put(4.0, "old"), Delete(5.0)]) by {
      BatchOf([Put(4.0, "old"), Delete(5.0)], 1, {OLD, GONE});
    }
    assert SwitchMemStep(DELETED, FULL);
  }

  lemma BatchOf(ops: seq<Op>, last: nat, entries: set<Entry>)
    requires 1 <= |ops| <= 2
    requires entries == {OpEntry(ops[0], last + 1), OpEntry(ops[|ops| - 1], last + |ops|)}
    ensures BatchEntries(ops, last) == entries
  {
    assert OpEntry(ops[0], last + 1 + 0) in BatchEntries(ops, last);
    assert OpEntry(ops[|ops| - 1], last + 1 + (|ops| - 1)) in BatchEntries(ops, last);
  }

  /** Versions with the same sorted levels are the same. */
  lemma SameVersion(v: Version, v': Version)
    requires |v| == |v'| == NUM_LEVELS
    requires forall l :: 0 <= l < NUM_LEVELS ==> Sorted(v[l]) && Sorted(v'[l])
    requires forall l, f :: 0 <= l < NUM_LEVELS ==> (f in v[l] <==> f in v'[l])
    ensures v == v'
  {
    forall l | 0 <= l < NUM_LEVELS
      ensures v[l] == v'[l]
    {
      SortedUnique(v[l], v'[l]);
    }
  }

  lemma FlushedOnce(v: Version, level: nat, f: FileMeta, a: Version, b: Version)
    requires Flushed(v, level, f, a) && Flushed(v, level, f, b)
    ensures a == b
  {
    SameVersion(a, b);
  }

  lemma ReplacedOnce(v: Version, level: nat, inputs0: seq<FileMeta>, inputs1: seq<FileMeta>, outputs: seq<FileMeta>,
                     a: Version, b: Version)
    requires Replaced(v, level, inputs0, inputs1, outputs, a) && Replaced(v, level, inputs0, inputs1, outputs, b)
    ensures a == b
  {
    hide Sorted;
    forall l, f | 0 <= l < NUM_LEVELS
      ensures f in a[l] <==> f in b[l]
    {
      if l == level {
        assert f in a[level] <==> f in v[level] && f !in inputs0;
      } else if l == level + 1 {
        assert f in a[level + 1] <==> (f in v[level + 1] && f !in inputs1) || f in outputs;
      } else {
        assert f in a[l] <==> f in v[l];
      }
    }
    SameVersion(a, b);
  }

  lemma Flushes(st: Store, st': Store, f: FileMeta, v': Version)
    requires Inv(st) && st.job.None? && st.imm.Some? && st.imm.value != []
    requires f == TableOf(st.nextFile, 1, st.imm.value)
    requires |st.version| == NUM_LEVELS && Picked(st.version, f.smallest.user, f.largest.user, 1, 2)
    requires Flushed(st.version, 2, f, v') && st' == st.(imm := None, version := v', nextFile := st.nextFile + 1)
    ensures OtherStep(st, st')
  {
    hide Picked, Stored, MemoryOk, Faithful, FlushFits, OtherStep, Flushed;
    ImmFits(st, 2, f);
    FlushAdds(st.version, 2, f);
    FlushedOnce(st.version, 2, f, LogAndApply(st.version, AddEdit(2, f)), v');
    FlushIsOther(st, st', 2, 1);
  }

  lemma FlushIsOther(st: Store, st': Store, level: nat, size: nat)
    requires FlushStep(st, st', level, size)
    ensures OtherStep(st, st')
  {
    hide FlushStep;
  }

  lemma FirstFlush()
    requires Reached(FULL)
    ensures Reached(FLUSHED)
  {
    hide Inv, Reached, OtherStep;
    ReachedInv(FULL);
    var v' := LowerLevels([WHOLE], []);
    assert Picked(EmptyVersion, 4.0, 5.0, 1, 2) by {
      forall l | 0 <= l < NUM_LEVELS
        ensures EmptyVersion[l] == []
      {
      }
    }
    assert Flushed(EmptyVersion, 2, WHOLE, v');
    Flushes(FULL, FLUSHED, WHOLE, v');
    ReachOther(FULL, FLUSHED);
  }

  lemma SecondFlush()
    requires Reached(FULL_AGAIN)
    ensures Reached(SPLIT)
  {
    hide Inv, Reached, OtherStep;
    ReachedInv(FULL_AGAIN);
    var v, v' := FULL_AGAIN.version, SPLIT.version;
    assert Picked(v, 4.0, 4.0, 1, 2) by {
      forall l | 0 <= l < 3
        ensures v[l] == []
      {
      }
      OverlapsHead();
    }
    assert BySmallest(HEAD, TAIL);
    assert Flushed(v, 2, NEW, v');
    Flushes(FULL_AGAIN, SPLIT, NEW, v');
    ReachOther(FULL_AGAIN, SPLIT);
  }

  lemma OverlapsHead()
    ensures Overlapping([HEAD, TAIL], Some(4.0), Some(4.0)) == [HEAD]
    ensures TotalFileSize(Overlapping([HEAD, TAIL], Some(4.0), Some(4.0))) == 1
  {
    assert [HEAD, TAIL][..1] == [HEAD] && [HEAD][..0] == [];
    assert Overlapping([HEAD], Some(4.0), Some(4.0)) == [] + [HEAD];
    assert TotalFileSize([HEAD]) == TotalFileSize([]) + 1;
  }

  // ---- the compaction that cuts the key in two ----

  /** A lone file of level 2, with these files of level 3 in its range and no boundary file after it. */
  lemma LoneSelected(v: Version, f: FileMeta, next: seq<FileMeta>)
    requires |v| == NUM_LEVELS && v[2] == [f] && !Less(f.largest, f.smallest)
    requires next == Overlapping(v[3], Some(f.smallest.user), Some(f.largest.user))
    ensures Selected(v, 2, [f], next) && Closure(v[2], [f], [f]) && NextLevelOverlap(v, 2, [f], next)
  {
    assert v[2][0..1] == [f];
    assert Slice(v[2], [f]);
    assert f in [f];
    assert IsRange([f], f.smallest, f.largest);
    assert NextLevelOverlap(v, 2, [f], next);
  }

  lemma BeginsCutting()
    requires Reached(FLUSHED)
    ensures Reached(CUTTING)
  {
    hide Reached;
    LoneSelected(FLUSHED.version, WHOLE, []);
    assert BeginStep(FLUSHED, CUTTING, 2, [WHOLE], []);
    BeginIsOther(FLUSHED, CUTTING, 2, [WHOLE], []);
    ReachOther(FLUSHED, CUTTING);
  }

  lemma BeginIsOther(st: Store, st': Store, level: nat, inputs0: seq<FileMeta>, inputs1: seq<FileMeta>)
    requires BeginStep(st, st', level, inputs0, inputs1)
    ensures OtherStep(st, st')
  {
    hide BeginStep;
  }

  /** The snapshot at 1 keeps both the deletion at 3 and the value at 1. */
  lemma BothKept()
    ensures Contents([HEAD, TAIL]) == Kept(FLUSHED.version, 2, WHOLE.entries, 1) == WHOLE.entries
    ensures Tables([HEAD, TAIL], 3) && Merged(WHOLE.entries, [WHOLE] + [])
  {
    var input := WHOLE.entries;
    assert WHOLE in [WHOLE] + [];
    assert [HEAD, TAIL][..1] == [HEAD] && [HEAD][..0] == [];
    assert Contents([HEAD]) == [] + HEAD.entries;
    var one, two := input[..1], input[..2];
    assert two[..1] == one && one[..0] == [];
    assert Kept(FLUSHED.version, 2, one, 1) == [] + [OLD];
    assert Kept(FLUSHED.version, 2, two, 1) == [OLD] + [GONE];
    assert Kept(FLUSHED.version, 2, input, 1) == [OLD, GONE] + [BACK];
  }

  /** What a finished compaction installs, given which files each level then holds. */
  lemma Replaces(st: Store, j: Job, input: seq<Entry>, outputs: seq<FileMeta>, v': Version)
    requires Inv(st) && st.job == Some(j) && j.level + 1 < |st.version| == NUM_LEVELS
    requires Merged(input, j.inputs0 + j.inputs1) && Replaced(st.version, j.level, j.inputs0, j.inputs1, outputs, v')
    requires Contents(outputs) == Kept(st.version, j.level, input, j.snap) && Tables(outputs, st.nextFile)
    ensures Stored(v') && v' == LogAndApply(st.version, CompactionEdit(j.level, j.inputs0, j.inputs1, outputs))
    ensures AllEntries(v') == RestEntries(st.version, j.level, j.inputs0, j.inputs1) + EntrySet(Contents(outputs))
  {
    hide Stored, MemoryOk, Faithful, Merged, Kept, RestEntries, Tables, OutputsOk, InputsOk, Replaced, Selected;
    JobInputsOk(st);
    InputBounded(st, j.level, j.inputs0, j.inputs1, input);
    FinishOutputsOk(st, j, input, outputs);
    InstallKeepsStored(st.version, j.level, j.inputs0, j.inputs1, outputs);
    var made := LogAndApply(st.version, CompactionEdit(j.level, j.inputs0, j.inputs1, outputs));
    FinishVersion(st, j, input, outputs, made);
    ReplacedOnce(st.version, j.level, j.inputs0, j.inputs1, outputs, made, v');
  }

  lemma ReplacedByCut()
    ensures Replaced(CUTTING.version, 2, [WHOLE], [], [HEAD, TAIL], LowerLevels([], [HEAD, TAIL]))
  {
    assert BySmallest(HEAD, TAIL);
  }

  lemma NothingExposed(st: Store, j: Job, input: seq<Entry>, u: UserKey)
    requires j.inputs1 == []
    ensures !Exposes(st, j, input, u)
  {
  }

  lemma CutsInTwo()
    requires Reached(CUTTING)
    ensures Reached(CUT)
  {
    hide Inv, Reached, Tables, Merged, Kept, Exposes, Replaced;
    ReachedInv(CUTTING);
    BothKept();
    ReplacedByCut();
    Replaces(CUTTING, CUTTING.job.value, WHOLE.entries, [HEAD, TAIL], CUT.version);
    forall u
      ensures !Exposes(CUTTING, CUTTING.job.value, WHOLE.entries, u)
    {
      NothingExposed(CUTTING, CUTTING.job.value, WHOLE.entries, u);
    }
    FinishIsNext(CUTTING, CUT, WHOLE.entries, [HEAD, TAIL]);
    ReachNext(CUTTING, CUT);
  }

  lemma FinishIsNext(st: Store, st': Store, input: seq<Entry>, outputs: seq<FileMeta>)
    requires FinishStep(st, st', input, outputs)
    ensures Next(st, st')
  {
    hide FinishStep, OtherStep;
  }

  // ---- the compaction that takes only the first part ----

  lemma WritesAgain()
    ensures ReleaseSnapshotStep(CUT, RELEASED, 0)
    ensures OtherStep(CUT, RELEASED) && OtherStep(RELEASED, AGAIN) && OtherStep(AGAIN, FULL_AGAIN)
  {
    hide FlushStep, MoveStep, BeginStep;
    assert CUT.snapshots[..0] + CUT.snapshots[0 + 1..] == [];
    assert WriteStep(RELEASED, AGAIN, [Put(4.0, "new")]) by {
      BatchOf([Put(4.0, "new")], 3, {FRESH});
    }
    assert SwitchMemStep(AGAIN, FULL_AGAIN);
  }

  /** The files of the last compaction are what SetupOtherInputs makes of the new table alone, under any limit. */
  lemma HeadSelected(limit: nat)
    ensures Selected(SPLIT.version, 2, [NEW], [HEAD]) && SetUp(SPLIT.version, 2, limit, [NEW], [NEW], [HEAD])
  {
    hide Selected, Expansion, Closure, NextLevelOverlap;
    OverlapsHead();
    LoneSelected(SPLIT.version, NEW, [HEAD]);
    NothingToAdd();
    assert Inputs.Grown(SPLIT.version, 2, limit, [NEW], [HEAD], [NEW], [HEAD]);
  }

  /** Searching level 2 again over the range of both files adds nothing to the new table. */
  lemma NothingToAdd()
    ensures Expansion(SPLIT.version, 2, [NEW] + [HEAD], [NEW])
  {
    hide Selected, NextLevelOverlap;
    var v := SPLIT.version;
    OverlapsHead();
    LoneSelected(v, NEW, [HEAD]);
    assert NEW in [NEW] + [HEAD] && HEAD in [NEW] + [HEAD];
    assert IsRange([NEW] + [HEAD], NEW.smallest, HEAD.largest);
    assert v[2][..0] == [];
    assert Overlapping(v[2], Some(4.0), Some(5.0)) == [] + [NEW];
    assert Reach(v[2], 2, 4.0, 5.0, Some(4.0), Some(5.0));
  }

  lemma ReachesJoining()
    ensures Reached(JOINING)
  {
    hide Reached, Inv, OtherStep, Selected;
    ReachesCut();
    WritesAgain();
    ReachOther(CUT, RELEASED);
    ReachOther(RELEASED, AGAIN);
    ReachOther(AGAIN, FULL_AGAIN);
    SecondFlush();
    BeginsJoining();
  }

  lemma BeginsJoining()
    requires Reached(SPLIT)
    ensures Reached(JOINING)
  {
    hide Reached, Selected, SetUp;
    HeadSelected(1);
    assert BeginStep(SPLIT, JOINING, 2, [NEW], [HEAD]);
    BeginIsOther(SPLIT, JOINING, 2, [NEW], [HEAD]);
    ReachOther(SPLIT, JOINING);
  }

  lemma ReachesCut()
    ensures Reached(CUT)
  {
    hide Reached, OtherStep;
    ReachesEmpty();
    Writes();
    ReachOther(EMPTY, PUT);
    ReachOther(PUT, HELD);
    ReachOther(HELD, DELETED);
    ReachOther(DELETED, FULL);
    FirstFlush();
    BeginsCutting();
    CutsInTwo();
  }

  lemma ReachesEmpty()
    ensures Reached(EMPTY)
  {
    assert Run([EMPTY]);
  }

  const INPUT: seq<Entry> := [FRESH, OLD, GONE]

  lemma JoinKept()
    ensures Merged(INPUT, [NEW] + [HEAD]) && Contents([OUT]) == Kept(SPLIT.version, 2, INPUT, 4) && Tables([OUT], 6)
    ensures Obsolete(SPLIT.version, 2, GONE, 4)
  {
    assert [OUT][..0] == [];
    assert NEW in [NEW] + [HEAD] && HEAD in [NEW] + [HEAD];
    assert BaseLevel(SPLIT.version, 2, 5.0);
    var one, two := INPUT[..1], INPUT[..2];
    assert two[..1] == one && one[..0] == [];
    assert !Dropped(SPLIT.version, 2, one, 0, 4);
    assert Kept(SPLIT.version, 2, one, 4) == [] + [FRESH];
    assert Hidden(two, 1, 4);
    assert Kept(SPLIT.version, 2, two, 4) == [FRESH] + [];
    assert Kept(SPLIT.version, 2, INPUT, 4) == [FRESH] + [];
  }

  lemma ReplacedByJoin()
    ensures Replaced(JOINING.version, 2, [NEW], [HEAD], [OUT], JOINED.version)
  {
    assert BySmallest(OUT, TAIL);
  }

  lemma Joins()
    requires Reached(JOINING)
    ensures Installed(JOINING, JOINED, JOINING.job.value, INPUT, [OUT])
    ensures Stored(JOINED.version)
    ensures AllEntries(JOINED.version) == RestEntries(SPLIT.version, 2, [NEW], [HEAD]) + EntrySet(OUT.entries)
  {
    hide Inv, Reached, Tables, Merged, Kept, Stored, Replaced, RestEntries;
    ReachedInv(JOINING);
    JoinKept();
    ReplacedByJoin();
    Replaces(JOINING, JOINING.job.value, INPUT, [OUT], JOINED.version);
    assert [OUT][..0] == [];
  }

  lemma ExposesDeleted()
    ensures Exposes(JOINING, JOINING.job.value, INPUT, 5.0)
  {
    JoinKept();
    assert Newest(EntrySet(INPUT), 5.0, 4, GONE);
    assert Straddles(JOINING.version, 2, [HEAD], 0, 5.0);
    NothingLeft();
  }

  lemma NothingLeft()
    ensures NothingAbove(JOINING, JOINING.job.value, 5.0)
  {
    forall l: nat, f | l <= 2
      ensures !Left(JOINING.version, 2, [NEW], [HEAD], l, f)
    {
    }
  }

  lemma ReadsBack()
    requires Stored(JOINED.version)
    requires AllEntries(JOINED.version) == RestEntries(SPLIT.version, 2, [NEW], [HEAD]) + EntrySet(OUT.entries)
    ensures Read(Live(JOINED), 5.0, 4) == Found("back")
  {
    hide Stored, VersionOk, AllEntries, RestEntries, DistinctSeq, Read;
    StoredIsOk(JOINED.version);
    VersionDistinct(JOINED.version);
    assert Live(JOINED) == AllEntries(JOINED.version);
    BackIsLeft();
    forall e | e in AllEntries(JOINED.version) && Visible(e, 5.0, 4)
      ensures e == BACK
    {
      OnlyBackIsLeft(e);
    }
    assert Newest(AllEntries(JOINED.version), 5.0, 4, BACK);
    ReadIsNewest(AllEntries(JOINED.version), 5.0, 4, BACK);
  }

  lemma BackIsLeft()
    ensures BACK in RestEntries(SPLIT.version, 2, [NEW], [HEAD])
  {
    assert Left(SPLIT.version, 2, [NEW], [HEAD], 3, TAIL);
    RestIn(SPLIT.version, 2, [NEW], [HEAD], BACK);
  }

  lemma OnlyBackIsLeft(e: Entry)
    requires e.key.user == 5.0
    ensures e in RestEntries(SPLIT.version, 2, [NEW], [HEAD]) ==> e == BACK
  {
    RestIn(SPLIT.version, 2, [NEW], [HEAD], e);
    if l: nat, f :| Left(SPLIT.version, 2, [NEW], [HEAD], l, f) && e in f.entries {
      assert l == 3 && f == TAIL;
    }
  }

  lemma HistoryDeleted()
    ensures Read(JOINED.written, 5.0, 4) == NotFound
  {
    assert DistinctSeq(JOINED.written);
    assert Newest(JOINED.written, 5.0, 4, GONE);
    ReadIsNewest(JOINED.written, 5.0, 4, GONE);
  }

  /** A run from the empty store reaches a compaction whose inputs are the ones selection picks, whose outputs are the
      ones the merge loop writes, and after which a deleted key reads as present. */
  lemma DeletedKeyReturns(limit: nat)
    ensures Reached(JOINING) && SetUp(JOINING.version, 2, limit, [NEW], [NEW], [HEAD])
    ensures Installed(JOINING, JOINED, Job(2, [NEW], [HEAD], Oldest(JOINING)), INPUT, [OUT])
    ensures Exposes(JOINING, JOINING.job.value, INPUT, 5.0)
    ensures Read(Live(JOINING), 5.0, 4) == Read(JOINED.written, 5.0, 4) == NotFound
    ensures Read(Live(JOINED), 5.0, 4) == Found("back")
  {
    hide Reached, Installed, Exposes, Read, SetUp, Stored, MemoryOk, JobOk, RestEntries, AllEntries;
    ReachesJoining();
    HeadSelected(limit);
    Joins();
    ExposesDeleted();
    ReadsBack();
    HistoryDeleted();
    ReachedInv(JOINING);
  }
}
