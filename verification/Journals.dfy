/** The edits a running store logs, and that one builder replaying them recovers exactly the versions installed. */
module Journals {
  import opened Basics
  import opened InternalKeys
  import opened Versions
  import opened Inputs
  import opened Builders
  import opened Compactions
  import opened Installs
  import opened Stores
  import opened StoreRuns
  import VersionEdits
  import Manifests
  import LogFormat
  import LogReader

  /** A store, and the edits its manifest holds. */
  datatype Journal = Journal(st: Store, edits: seq<Edit>)

  /** A manifest starts with a snapshot of the version that is current then. */
  ghost predicate Opened(j: Journal) {
    Inv(j.st) && j.edits == [Snapshot(j.st.version)]
  }

  // ---- the edit each step logs ----

  ghost predicate Quiet(j: Journal, j': Journal) {
    QuietStep(j.st, j'.st) && j'.edits == j.edits
  }

  /** An empty memtable leaves no table, and an edit without files. */
  function FlushEdit(st: Store, level: nat, size: nat): Edit
    requires st.imm.Some?
  {
    if st.imm.value == [] then Edit({}, []) else AddEdit(level, TableOf(st.nextFile, size, st.imm.value))
  }

  ghost predicate Flush(j: Journal, j': Journal, level: nat, size: nat) {
    FlushStep(j.st, j'.st, level, size) && j'.edits == j.edits + [FlushEdit(j.st, level, size)]
  }

  ghost predicate Move(j: Journal, j': Journal, level: nat, f: FileMeta) {
    MoveStep(j.st, j'.st, level, f) && j'.edits == j.edits + [CompactionEdit(level, [f], [], [f])]
  }

  function FinishEdit(j: Job, outputs: seq<FileMeta>): Edit {
    CompactionEdit(j.level, j.inputs0, j.inputs1, outputs)
  }

  ghost predicate Finish(j: Journal, j': Journal, input: seq<Entry>, outputs: seq<FileMeta>) {
    FinishStep(j.st, j'.st, input, outputs) && j'.edits == j.edits + [FinishEdit(j.st.job.value, outputs)]
  }

  ghost predicate JournalNext(j: Journal, j': Journal) {
    || Quiet(j, j')
    || (exists level, size :: Flush(j, j', level, size))
    || (exists level, f :: Move(j, j', level, f))
    || (exists input, outputs :: Finish(j, j', input, outputs))
  }

  ghost predicate JournalRun(run: seq<Journal>) {
    |run| > 0 && Opened(run[0]) && forall i :: 0 <= i < |run| - 1 ==> JournalNext(run[i], run[i + 1])
  }

  // ---- the invariant ----

  /** The numbers of the files ever added at the level are in use no more above it. */
  ghost predicate Known(st: Store, edits: seq<Edit>, level: nat) {
    forall f :: f in AddedAll(edits, level) ==> f.number < st.nextFile && NotAbove(st.version, f.number, level)
  }

  predicate NotAbove(v: Version, number: nat, level: nat) {
    forall m, g :: 0 <= m < |v| && g in v[m] && g.number == number ==> level <= m
  }

  ghost predicate Recorded(j: Journal) {
    && |j.st.version| == NUM_LEVELS && j.st.version == InstallAll(EmptyVersion, j.edits)
    && forall l: nat :: l < NUM_LEVELS ==> NeverReAdded([], j.edits, l) && Known(j.st, j.edits, l)
  }

  /** The files an edit adds at a level are new, or come down from the level above. */
  ghost predicate Brings(st: Store, st': Store, level: nat, files: seq<FileMeta>)
    requires level < |st.version| == |st'.version|
  {
    && DistinctNumbers(files) && st.nextFile <= st'.nextFile
    && (forall f :: f in files ==> f in st'.version[level] && f.number < st'.nextFile)
    && (forall f :: f in files ==> f.number >= st.nextFile || (level > 0 && f in st.version[level - 1]))
    && (forall m, g :: 0 <= m < |st'.version| && g in st'.version[m] ==>
       g in st.version[m] || (m == level && g in files))
  }

  lemma BroughtFresh(j: Journal, st': Store, level: nat, files: seq<FileMeta>, l: nat)
    requires Recorded(j) && level < |j.st.version| == |st'.version| && Brings(j.st, st', level, files) && l < NUM_LEVELS
    ensures FreshEdit([] + AddedAll(j.edits, l), AddAt(level, files), l)
  {
    assert [] + AddedAll(j.edits, l) == AddedAll(j.edits, l);
    forall i, g | 0 <= i < |files| && l == level && g in AddedAll(j.edits, l)
      ensures g.number != files[i].number
    {
      assert Known(j.st, j.edits, l) && files[i] in files;
    }
  }

  lemma BroughtKnown(j: Journal, st': Store, level: nat, files: seq<FileMeta>, l: nat, f: FileMeta)
    requires Recorded(j) && level < |j.st.version| == |st'.version| && Brings(j.st, st', level, files) && l < NUM_LEVELS
    requires LevelsByAge(st'.version) && (f in AddedAll(j.edits, l) || (l == level && f in files))
    ensures f.number < st'.nextFile && NotAbove(st'.version, f.number, l)
  {
    hide FreshEdit, NeverReAdded, AddedAll, InstallAll;
    assert Known(j.st, j.edits, l);
    forall m, g | 0 <= m < |st'.version| && g in st'.version[m] && g.number == f.number
      ensures l <= m
    {
      if f in AddedAll(j.edits, l) {
        assert NotAbove(j.st.version, f.number, l);
        assert g in j.st.version[m] || (m == level && g in files);
      } else {
        assert f in st'.version[level];
      }
    }
  }

  lemma KnownAfter(j: Journal, j': Journal, e: Edit, level: nat, files: seq<FileMeta>, l: nat)
    requires Recorded(j) && level < |j.st.version| == |j'.st.version| && Brings(j.st, j'.st, level, files)
    requires LevelsByAge(j'.st.version) && l < NUM_LEVELS
    requires j'.edits == j.edits + [e] && e.added == AddAt(level, files)
    ensures NeverReAdded([], j'.edits, l) && Known(j'.st, j'.edits, l)
  {
    hide Recorded, Brings, LevelsByAge, Sorted, FreshEdit, NotAbove;
    BroughtFresh(j, j'.st, level, files, l);
    assert j'.edits[..|j.edits|] == j.edits && NeverReAdded([], j.edits, l) by {
      NeverYet(j, l);
    }
    RecoveryMembers(EmptyVersion, j.edits, l);
    NextLevel(j.edits, e, l);
    assert [] + AddedAll(j.edits, l) == AddedAll(j.edits, l);
    AddedAfterMembers(AddedAll(j.edits, l), e.added, l);
    forall f | f in AddedAll(j'.edits, l)
      ensures f.number < j'.st.nextFile && NotAbove(j'.st.version, f.number, l)
    {
      AddAtMembers(level, files, l, f);
      BroughtKnown(j, j'.st, level, files, l, f);
    }
  }

  lemma NeverYet(j: Journal, l: nat)
    requires Recorded(j) && l < NUM_LEVELS
    ensures NeverReAdded([], j.edits, l) && j.st.version == InstallAll(EmptyVersion, j.edits)
  {
    assert NeverReAdded([], j.edits, l) && Known(j.st, j.edits, l);
  }

  /** One more edit that brings its files keeps the record. */
  lemma KeepsRecorded(j: Journal, j': Journal, e: Edit, level: nat, files: seq<FileMeta>)
    requires Recorded(j) && level < |j.st.version| == |j'.st.version| == NUM_LEVELS && LevelsByAge(j'.st.version)
    requires j'.edits == j.edits + [e] && e.added == AddAt(level, files) && Brings(j.st, j'.st, level, files)
    requires j'.st.version == LogAndApply(j.st.version, e)
    ensures Recorded(j')
  {
    hide Brings, LevelsByAge, LogAndApply, NeverReAdded, Known;
    NextInstalled(j.edits, e);
    forall l: nat | l < NUM_LEVELS
      ensures NeverReAdded([], j'.edits, l) && Known(j'.st, j'.edits, l)
    {
      KnownAfter(j, j', e, level, files, l);
    }
  }

  // ---- every step ----

  lemma QuietKeeps(j: Journal, j': Journal)
    requires Recorded(j) && Quiet(j, j')
    ensures Recorded(j')
  {
    hide NeverReAdded, WriteStep, BeginStep;
    QuietFiles(j.st, j'.st);
    forall l: nat | l < NUM_LEVELS
      ensures NeverReAdded([], j'.edits, l) && Known(j'.st, j'.edits, l)
    {
      NeverYet(j, l);
      assert Known(j.st, j.edits, l);
    }
  }

  lemma QuietFiles(st: Store, st': Store)
    requires QuietStep(st, st')
    ensures st'.version == st.version && st'.nextFile == st.nextFile
  {
  }

  /** An edit without files changes nothing. */
  lemma NothingLogged(v: Version)
    requires |v| == NUM_LEVELS && forall l :: 0 <= l < NUM_LEVELS ==> Sorted(v[l])
    ensures LogAndApply(v, Edit({}, [])) == v
  {
    var e := Edit({}, []);
    forall l | 0 <= l < NUM_LEVELS
      ensures LogAndApply(v, e)[l] == v[l]
    {
      assert DeletedAt(e, l) == {};
      SaveSorted(v[l], [], {});
      forall f
        ensures f in SaveLevel(v[l], [], {}) <==> f in v[l]
      {
        SaveMembers(v[l], [], {}, f);
      }
      SortedUnique(SaveLevel(v[l], [], {}), v[l]);
    }
  }

  lemma FlushBrings(st: Store, st': Store, level: nat, size: nat)
    requires Inv(st) && FlushStep(st, st', level, size) && st.imm.value != []
    ensures level < NUM_LEVELS && |st'.version| == NUM_LEVELS
    ensures Brings(st, st', level, [TableOf(st.nextFile, size, st.imm.value)])
  {
    hide Stored, MemoryOk, Faithful, Selected, FlushFits;
    var f := TableOf(st.nextFile, size, st.imm.value);
    ImmFits(st, level, f);
    FlushAdds(st.version, level, f);
  }

  lemma NothingBrought(st: Store, st': Store)
    requires |st.version| == NUM_LEVELS && st'.version == st.version && st'.nextFile == st.nextFile
    ensures Brings(st, st', 0, [])
  {
  }

  lemma FlushKeeps(j: Journal, j': Journal, level: nat, size: nat)
    requires Recorded(j) && Inv(j.st) && Inv(j'.st) && Flush(j, j', level, size)
    ensures Recorded(j')
  {
    hide Recorded, Brings, MemoryOk, Faithful, JobOk, Sorted, SoundFiles, SoundLevels, LevelsByAge;
    if j.st.imm.value == [] {
      NothingLogged(j.st.version);
      NothingBrought(j.st, j'.st);
      KeepsRecorded(j, j', Edit({}, []), 0, []);
    } else {
      var f := TableOf(j.st.nextFile, size, j.st.imm.value);
      FlushBrings(j.st, j'.st, level, size);
      KeepsRecorded(j, j', AddEdit(level, f), level, [f]);
    }
  }

  lemma MoveBrings(st: Store, st': Store, level: nat, f: FileMeta)
    requires Inv(st) && MoveStep(st, st', level, f)
    ensures |st'.version| == NUM_LEVELS && Brings(st, st', level + 1, [f])
  {
    hide Stored, MemoryOk, Faithful, Selected, OutputsOk, InputsOk;
    MoveInputs(st.version, level, f);
    MoveOutputsOk(st.version, level, f);
    CompactionReplaces(st.version, level, [f], [], [f]);
  }

  lemma MoveKeeps(j: Journal, j': Journal, level: nat, f: FileMeta)
    requires Recorded(j) && Inv(j.st) && Inv(j'.st) && Move(j, j', level, f)
    ensures Recorded(j')
  {
    hide Recorded, Brings, MemoryOk, Faithful, JobOk, SoundFiles, SoundLevels, LevelsByAge, Selected;
    MoveBrings(j.st, j'.st, level, f);
    KeepsRecorded(j, j', CompactionEdit(level, [f], [], [f]), level + 1, [f]);
  }

  lemma FinishReplaces(st: Store, st': Store, input: seq<Entry>, outputs: seq<FileMeta>)
    requires Inv(st) && FinishStep(st, st', input, outputs)
    ensures Replaced(st.version, st.job.value.level, st.job.value.inputs0, st.job.value.inputs1, outputs, st'.version)
  {
    hide Stored, MemoryOk, Faithful, Merged, Kept, Tables, OutputsOk, Exposes, InputsOk, Selected, Replaced;
    var j := st.job.value;
    JobInputsOk(st);
    InputBounded(st, j.level, j.inputs0, j.inputs1, input);
    FinishOutputsOk(st, j, input, outputs);
    InstallKeepsStored(st.version, j.level, j.inputs0, j.inputs1, outputs);
  }

  lemma FinishBrings(st: Store, st': Store, input: seq<Entry>, outputs: seq<FileMeta>)
    requires Inv(st) && FinishStep(st, st', input, outputs)
    ensures st.job.value.level + 1 < NUM_LEVELS == |st.version| == |st'.version|
    ensures Brings(st, st', st.job.value.level + 1, outputs)
  {
    hide Inv, Merged, Kept, Contents, Exposes;
    FinishReplaces(st, st', input, outputs);
    forall f | f in outputs
      ensures st.nextFile <= f.number < st'.nextFile
    {
      var i :| 0 <= i < |outputs| && outputs[i] == f;
    }
  }

  lemma FinishKeeps(j: Journal, j': Journal, input: seq<Entry>, outputs: seq<FileMeta>)
    requires Recorded(j) && Inv(j.st) && Inv(j'.st) && Finish(j, j', input, outputs)
    ensures Recorded(j')
  {
    hide Recorded, Brings, MemoryOk, Faithful, JobOk, SoundFiles, SoundLevels, LevelsByAge, Merged, Kept, Tables,
      Exposes;
    FinishBrings(j.st, j'.st, input, outputs);
    KeepsRecorded(j, j', FinishEdit(j.st.job.value, outputs), j.st.job.value.level + 1, outputs);
  }

  // ---- every run ----

  lemma JournalNextIsNext(j: Journal, j': Journal)
    requires JournalNext(j, j')
    ensures Next(j.st, j'.st)
  {
    hide QuietStep, FlushStep, MoveStep, FinishStep;
  }

  lemma NextKeeps(j: Journal, j': Journal)
    requires Inv(j.st) && Recorded(j) && JournalNext(j, j')
    ensures Inv(j'.st) && Recorded(j')
  {
    hide Inv, Recorded, Quiet, Flush, Move, Finish, Next;
    JournalNextIsNext(j, j');
    NextKeepsInv(j.st, j'.st);
    if Quiet(j, j') {
      QuietKeeps(j, j');
    } else if level, size :| Flush(j, j', level, size) {
      FlushKeeps(j, j', level, size);
    } else if level, f :| Move(j, j', level, f) {
      MoveKeeps(j, j', level, f);
    } else {
      var input, outputs :| Finish(j, j', input, outputs);
      FinishKeeps(j, j', input, outputs);
    }
  }

  lemma OpenedRecorded(j: Journal)
    requires Opened(j)
    ensures Recorded(j)
  {
    hide MemoryOk, Faithful, JobOk;
    var v, e := j.st.version, Snapshot(j.st.version);
    assert [] + [e] == j.edits;
    StoredIsOk(v);
    forall l: nat | l < NUM_LEVELS
      ensures LogAndApply(EmptyVersion, e)[l] == v[l] && NeverReAdded([], j.edits, l) && Known(j.st, j.edits, l)
    {
      SnapshotRestores(v, l);
      SnapshotRecord(j, l);
    }
    NextInstalled([], e);
  }

  lemma SnapshotRecord(j: Journal, l: nat)
    requires Opened(j) && l < NUM_LEVELS
    ensures NeverReAdded([], j.edits, l) && Known(j.st, j.edits, l)
  {
    hide MemoryOk, Faithful, JobOk, Sorted, SoundFiles, SoundLevels;
    var v, e := j.st.version, Snapshot(j.st.version);
    StoredIsOk(v);
    SnapshotAt(v, NUM_LEVELS, l);
    NextLevel([], e, l);
    assert [] + [e] == j.edits && j.edits[..0] == [] && [] + AddedAll([], l) == [];
    AddedAfterMembers([], e.added, l);
  }

  lemma {:induction false} JournalInv(run: seq<Journal>, i: nat)
    requires JournalRun(run) && i < |run|
    ensures Inv(run[i].st) && Recorded(run[i])
  {
    hide Inv, Recorded, JournalNext;
    if i == 0 {
      assert Inv(run[0].st) by {
        OpenedInv(run[0]);
      }
      OpenedRecorded(run[0]);
    } else {
      JournalInv(run, i - 1);
      assert JournalNext(run[i - 1], run[i - 1 + 1]);
      NextKeeps(run[i - 1], run[i]);
    }
  }

  lemma OpenedInv(j: Journal)
    requires Opened(j)
    ensures Inv(j.st)
  {
    hide Inv;
  }

  /** At every moment of every run, replaying the manifest through one builder gives the current version. */
  lemma RecoversCurrent(run: seq<Journal>, i: nat, level: nat)
    requires JournalRun(run) && i < |run| && level < NUM_LEVELS
    ensures |run[i].st.version| == NUM_LEVELS
    ensures SaveLevel([], AddedAll(run[i].edits, level), DeletedAll(run[i].edits, level)) == run[i].st.version[level]
  {
    hide Inv, JournalRun, SaveLevel, AddedAll, DeletedAll, InstallAll, NeverReAdded, Known;
    JournalInv(run, i);
    NeverYet(run[i], level);
    RecoveryIsInstallation(EmptyVersion, run[i].edits, level);
  }

  lemma NextLogs(j: Journal, j': Journal)
    requires JournalNext(j, j')
    ensures j'.edits == j.edits || (|j'.edits| == |j.edits| + 1 && j'.edits[..|j.edits|] == j.edits)
  {
    hide QuietStep, FlushStep, MoveStep, FinishStep;
  }

  /** A crash that leaves the first k edits leaves what the manifest was at some moment of the run. */
  lemma {:induction false} PrefixHeld(run: seq<Journal>, i: nat, k: nat) returns (h: nat)
    requires JournalRun(run) && i < |run| && 1 <= k <= |run[i].edits|
    ensures h <= i && run[h].edits == run[i].edits[..k]
  {
    hide JournalNext;
    if k == |run[i].edits| {
      h := i;
    } else {
      assert i > 0 by {
        OpenedOne(run[0]);
      }
      assert JournalNext(run[i - 1], run[i - 1 + 1]);
      NextLogs(run[i - 1], run[i]);
      h := PrefixHeld(run, i - 1, k);
    }
  }

  lemma OpenedOne(j: Journal)
    requires Opened(j)
    ensures |j.edits| == 1
  {
  }

  /** Whatever whole edits of the manifest a crash leaves, the builder recovers from them the very version the store had
      after the last of those edits. */
  lemma PrefixRecovers(run: seq<Journal>, i: nat, k: nat) returns (h: nat)
    requires JournalRun(run) && i < |run| && 1 <= k <= |run[i].edits|
    ensures h <= i && run[h].edits == run[i].edits[..k] && |run[h].st.version| == NUM_LEVELS
    ensures forall l :: 0 <= l < NUM_LEVELS ==>
              SaveLevel([], AddedAll(run[i].edits[..k], l), DeletedAll(run[i].edits[..k], l)) == run[h].st.version[l]
  {
    hide JournalRun, SaveLevel, AddedAll, DeletedAll;
    h := PrefixHeld(run, i, k);
    RecoversCurrent(run, h, 0);
    forall l | 0 <= l < NUM_LEVELS
      ensures SaveLevel([], AddedAll(run[i].edits[..k], l), DeletedAll(run[i].edits[..k], l)) == run[h].st.version[l]
    {
      RecoversCurrent(run, h, l);
    }
  }

  // ---- every run of the store has a journal ----

  lemma NextIsLogged(j: Journal, st': Store) returns (j': Journal)
    requires Next(j.st, st')
    ensures JournalNext(j, j') && j'.st == st'
  {
    hide QuietStep, FlushStep, MoveStep, FinishStep;
    if QuietStep(j.st, st') {
      j' := Journal(st', j.edits);
      assert Quiet(j, j');
    } else if level, size :| FlushStep(j.st, st', level, size) {
      FlushHasImm(j.st, st', level, size);
      j' := Journal(st', j.edits + [FlushEdit(j.st, level, size)]);
      assert Flush(j, j', level, size);
    } else if level, f :| MoveStep(j.st, st', level, f) {
      j' := Journal(st', j.edits + [CompactionEdit(level, [f], [], [f])]);
      assert Move(j, j', level, f);
    } else {
      var input, outputs :| FinishStep(j.st, st', input, outputs);
      FinishHasJob(j.st, st', input, outputs);
      j' := Journal(st', j.edits + [FinishEdit(j.st.job.value, outputs)]);
      assert Finish(j, j', input, outputs);
    }
  }

  lemma FlushHasImm(st: Store, st': Store, level: nat, size: nat)
    requires FlushStep(st, st', level, size)
    ensures st.imm.Some?
  {
    hide FlushInto;
  }

  lemma FinishHasJob(st: Store, st': Store, input: seq<Entry>, outputs: seq<FileMeta>)
    requires FinishStep(st, st', input, outputs)
    ensures st.job.Some?
  {
    hide Installed, Exposes;
  }

  lemma {:induction false} EveryRunHasJournal(run: seq<Store>) returns (journal: seq<Journal>)
    requires Run(run)
    ensures JournalRun(journal) && |journal| == |run| && forall i :: 0 <= i < |run| ==> journal[i].st == run[i]
  {
    hide Next, JournalNext, Init, Opened;
    if |run| == 1 {
      journal := [Journal(run[0], [Snapshot(EmptyVersion)])];
      InitOpened(journal[0]);
    } else {
      var n := |run| - 1;
      assert Run(run[..n]) by {
        forall i | 0 <= i < n - 1
          ensures Next(run[..n][i], run[..n][i + 1])
        {
          assert Next(run[i], run[i + 1]);
        }
      }
      var front := EveryRunHasJournal(run[..n]);
      assert Next(run[n - 1], run[n - 1 + 1]);
      var last := NextIsLogged(front[n - 1], run[n]);
      journal := front + [last];
      forall i | 0 <= i < n
        ensures JournalNext(journal[i], journal[i + 1])
      {
        assert i < n - 1 ==> JournalNext(front[i], front[i + 1]);
      }
    }
  }

  lemma InitOpened(j: Journal)
    requires Init(j.st) && j.edits == [Snapshot(EmptyVersion)]
    ensures Opened(j)
  {
    hide Inv;
    InitInv(j.st);
  }

  // ---- down to the bytes of the manifest ----

  lemma FrontEdits(written: seq<VersionEdits.Contents>, files: Manifests.Files, n: nat)
    requires n <= |written|
    ensures Manifests.EditsOf(written[..n], files) == Manifests.EditsOf(written, files)[..n]
  {
  }

  /** The version is that of a moment of the run, up to now, at which the manifest held the first k of today's edits. */
  ghost predicate HeldBy(run: seq<Journal>, i: nat, k: nat, v: Version)
    requires i < |run|
  {
    exists h :: 0 <= h <= i && k <= |run[i].edits| && run[h].edits == run[i].edits[..k] && v == run[h].st.version
  }

  /** VersionSet::Recover of what a crash left of a run's manifest: if it succeeds, the version is the one the store had
      after the last edit that is wholly there. */
  method Reopen(crc: LogFormat.Checksum, file: seq<byte>, name: seq<byte>, files: Manifests.Files,
                ghost written: seq<VersionEdits.Contents>, ghost run: seq<Journal>, ghost i: nat)
    returns (r: Option<Manifests.Recovered>)
    requires JournalRun(run) && i < |run| && Manifests.EditsOf(written, files) == run[i].edits
    requires Manifests.Left(crc, file, written, name)
    ensures r.Some? ==>
              HeldBy(run, i, LogReader.WholeCount(crc, file, Manifests.Records(written)), r.value.version)
  {
    hide JournalRun, Manifests.Left, Manifests.EditsOf, Manifests.Records, LogReader.WholeCount, NeverReAdded,
      SaveLevel,
         AddedAll, DeletedAll, InstallAll;
    r := Manifests.Recover(crc, file, name, files, written);
    if r.Some? {
      ghost var k := LogReader.WholeCount(crc, file, Manifests.Records(written));
      FrontEdits(written, files, k);
      ghost var h := PrefixRecovers(run, i, k);
    }
  }
}
