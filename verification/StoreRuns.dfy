/** What every step of the store keeps, over all runs, and what reads see. */
module StoreRuns {
  import opened Basics
  import opened InternalKeys
  import opened Versions
  import opened Inputs
  import opened Builders
  import opened Compactions
  import opened Installs
  import opened Stores
  import opened Boundaries

  // ---- writes ----

  /** New entries above everything answer, and otherwise change nothing. */
  lemma ReadGrows(a: set<Entry>, added: set<Entry>, last: nat, u: UserKey, s: nat)
    requires DistinctSeq(a + added) && BoundedBy(a, last) && forall e :: e in added ==> e.key.sequence > last
    ensures NoneVisible(added, u, s) ==> Read(a + added, u, s) == Read(a, u, s)
    ensures !NoneVisible(added, u, s) ==> Read(a + added, u, s) == Read(added, u, s)
  {
    assert DistinctSeq(a) && DistinctSeq(added);
    if NoneVisible(added, u, s) {
      var e := ReadCases(a, u, s);
      if e.None? {
        ReadNothing(a + added, u, s);
      } else {
        assert Newest(a + added, u, s, e.value);
        ReadIsNewest(a + added, u, s, e.value);
      }
    } else {
      var e := ReadCases(added, u, s);
      assert Newest(a + added, u, s, e.value);
      ReadIsNewest(a + added, u, s, e.value);
    }
  }

  lemma BatchFacts(ops: seq<Op>, last: nat)
    ensures DistinctSeq(BatchEntries(ops, last))
    ensures forall e :: e in BatchEntries(ops, last) ==> last < e.key.sequence <= last + |ops|
  {
  }

  lemma WriteKeepsInv(st: Store, st': Store, ops: seq<Op>)
    requires Inv(st) && WriteStep(st, st', ops)
    ensures Inv(st')
  {
    hide Stored, Selected;
    var added := BatchEntries(ops, st.lastSequence);
    BatchFacts(ops, st.lastSequence);
    assert Live(st') == Live(st) + added;
    LiveDistinct(st);
    assert DistinctSeq(Live(st) + added) && DistinctSeq(st.written + added);
    forall u, s | Oldest(st') <= s
      ensures Read(Live(st'), u, s) == Read(st'.written, u, s)
    {
      ReadGrows(Live(st), added, st.lastSequence, u, s);
      ReadGrows(st.written, added, st.lastSequence, u, s);
    }
  }

  lemma SwitchKeepsInv(st: Store, st': Store)
    requires Inv(st) && SwitchMemStep(st, st')
    ensures Inv(st')
  {
    hide Stored, Selected;
    assert MemoryEntries(st') == MemoryEntries(st);
    assert Live(st') == Live(st);
  }

  // ---- flush ----

  lemma FlushedEntries(v: Version, level: nat, f: FileMeta, v': Version)
    requires level < |v| && Flushed(v, level, f, v')
    ensures AllEntries(v') == AllEntries(v) + EntrySet(f.entries)
  {
    forall e
      ensures e in AllEntries(v') <==> e in AllEntries(v) || e in f.entries
    {
      EntryIn(v, e);
      EntryIn(v', e);
      if e in f.entries {
        assert f in v'[level];
      }
    }
  }

  lemma ImmFits(st: Store, level: nat, f: FileMeta)
    requires Inv(st) && st.imm.Some? && st.imm.value != [] && f == TableOf(st.nextFile, f.size, st.imm.value)
    requires level < |st.version|
    requires |st.version| == NUM_LEVELS
    requires level == 0 || exists limit :: Picked(st.version, f.smallest.user, f.largest.user, limit, level)
    ensures FlushFits(st.version, level, f)
  {
    forall i | 0 <= i < |f.entries|
      ensures f.entries[i].key.sequence <= MAX_SEQUENCE
    {
      assert f.entries[i] in Live(st);
    }
    forall l, g | 0 <= l < |st.version| && g in st.version[l]
      ensures NewerThan(f, g)
    {
      forall e, x | e in f.entries && x in g.entries
        ensures e.key.sequence > x.key.sequence
      {
        EntryIn(st.version, x);
        assert e in MemoryEntries(st);
      }
    }
  }

  lemma FlushVersion(st: Store, level: nat, f: FileMeta, v': Version)
    requires Stored(st.version) && FilesBelow(st) && FlushFits(st.version, level, f) && f.number == st.nextFile
    requires v' == LogAndApply(st.version, AddEdit(level, f))
    ensures Stored(v') && AllEntries(v') == AllEntries(st.version) + EntrySet(f.entries)
    ensures forall l, g :: 0 <= l < |v'| && g in v'[l] ==> g.number <= st.nextFile
  {
    FlushKeepsStored(st.version, level, f);
    FlushedEntries(st.version, level, f, v');
  }

  lemma FlushMemory(st: Store, st': Store)
    requires MemoryOk(st) && st.imm.Some? && st'.imm.None? && st'.mem == st.mem && st'.lastSequence == st.lastSequence
    requires AllEntries(st'.version) == AllEntries(st.version) + EntrySet(st.imm.value)
    ensures MemoryOk(st') && Live(st') == Live(st)
  {
  }

  lemma FlushKeepsInv(st: Store, st': Store, level: nat, size: nat)
    requires Inv(st) && FlushStep(st, st', level, size)
    ensures Inv(st')
  {
    hide Stored, Selected, FlushFits;
    if st.imm.value != [] {
      var f := TableOf(st.nextFile, size, st.imm.value);
      ImmFits(st, level, f);
      FlushVersion(st, level, f, st'.version);
    }
    FlushMemory(st, st');
  }

  // ---- moves and compactions ----

  lemma ReplacedEntries(v: Version, level: nat, inputs0: seq<FileMeta>, inputs1: seq<FileMeta>,
                        input: seq<Entry>, outputs: seq<FileMeta>, v': Version)
    requires level + 1 < |v| && InputsOk(v, level, inputs0, inputs1) && Merged(input, inputs0 + inputs1)
    requires Replaced(v, level, inputs0, inputs1, outputs, v')
    ensures AllEntries(v) == RestEntries(v, level, inputs0, inputs1) + EntrySet(input)
    ensures AllEntries(v') == RestEntries(v, level, inputs0, inputs1) + EntrySet(Contents(outputs))
  {
    forall e
      ensures e in AllEntries(v) <==> e in RestEntries(v, level, inputs0, inputs1) || e in input
      ensures e in AllEntries(v') <==> e in RestEntries(v, level, inputs0, inputs1) || e in Contents(outputs)
    {
      EntryBefore(v, level, inputs0, inputs1, input, e);
      EntryAfter(v, level, inputs0, inputs1, outputs, v', e);
    }
  }

  lemma EntryAfter(v: Version, level: nat, inputs0: seq<FileMeta>, inputs1: seq<FileMeta>, outputs: seq<FileMeta>,
                   v': Version, e: Entry)
    requires Replaced(v, level, inputs0, inputs1, outputs, v')
    ensures e in AllEntries(v') <==> e in RestEntries(v, level, inputs0, inputs1) || e in Contents(outputs)
  {
    EntryIn(v', e);
    RestIn(v, level, inputs0, inputs1, e);
    ContentsMembers(outputs, e);
    if l, f :| 0 <= l < |v'| && f in v'[l] && e in f.entries {
      assert Left(v, level, inputs0, inputs1, l, f) || f in outputs;
    }
    if l: nat, f :| Left(v, level, inputs0, inputs1, l, f) && e in f.entries {
      assert f in v'[l];
    }
    if f :| f in outputs && e in f.entries {
      assert f in v'[level + 1];
    }
  }

  lemma {:induction false} ContentsMembers(files: seq<FileMeta>, e: Entry)
    ensures e in Contents(files) <==> exists f :: f in files && e in f.entries
  {
    if |files| > 0 {
      var front, last := files[..|files| - 1], files[|files| - 1];
      ContentsMembers(front, e);
      assert files == front + [last];
    }
  }

  /** A sorted stream cut into tables gives sound, mutually disjoint tables in order. */
  lemma {:induction false} CutTables(files: seq<FileMeta>, first: nat)
    requires Tables(files, first) && SortedEntries(Contents(files))
    requires forall e :: e in Contents(files) ==> e.key.sequence <= MAX_SEQUENCE
    ensures forall f :: f in files ==> FileOk(f)
    ensures forall i, j :: 0 <= i < j < |files| ==> Before(files[i], files[j])
  {
    if |files| > 0 {
      var n := |files| - 1;
      var front, last := files[..n], files[n];
      var all := Contents(files);
      assert all == Contents(front) + last.entries;
      SortedParts(Contents(front), last.entries);
      CutTables(front, first);
      assert files == front + [last];
      forall i | 0 <= i < n
        ensures Before(files[i], last)
      {
        LastInContents(front, i);
        assert front[i] == files[i];
        assert last.entries[0] in last.entries;
      }
      assert forall e :: e in last.entries ==> e in all;
    }
  }

  lemma SortedParts(a: seq<Entry>, b: seq<Entry>)
    requires SortedEntries(a + b)
    ensures SortedEntries(a) && SortedEntries(b)
    ensures forall e, x :: e in a && x in b ==> Precedes(e.key, x.key)
  {
    forall i, j | 0 <= i < j < |b|
      ensures Precedes(b[i].key, b[j].key)
    {
      assert (a + b)[|a| + i] == b[i] && (a + b)[|a| + j] == b[j];
    }
    forall i, j | 0 <= i < j < |a|
      ensures Precedes(a[i].key, a[j].key)
    {
      assert (a + b)[i] == a[i] && (a + b)[j] == a[j];
    }
    forall e, x | e in a && x in b
      ensures Precedes(e.key, x.key)
    {
      var i :| 0 <= i < |a| && a[i] == e;
      var j :| 0 <= j < |b| && b[j] == x;
      assert (a + b)[i] == e && (a + b)[|a| + j] == x;
    }
  }

  lemma LastInContents(files: seq<FileMeta>, i: nat)
    requires i < |files| && files[i].entries != []
    ensures files[i].entries[|files[i].entries| - 1] in Contents(files)
  {
    ContentsMembers(files, files[i].entries[|files[i].entries| - 1]);
  }

  lemma FinishOutputsOk(st: Store, j: Job, input: seq<Entry>, outputs: seq<FileMeta>)
    requires FilesBelow(st) && Merged(input, j.inputs0 + j.inputs1)
    requires Contents(outputs) == Kept(st.version, j.level, input, j.snap) && Tables(outputs, st.nextFile)
    requires forall e :: e in input ==> e.key.sequence <= MAX_SEQUENCE
    ensures OutputsOk(st.version, j.level, j.inputs0, j.inputs1, outputs)
  {
    KeptSorted(st.version, j.level, input, j.snap);
    CutTables(outputs, st.nextFile);
    forall o, o' | o in outputs && o' in outputs && o != o'
      ensures Before(o, o') || Before(o', o)
    {
      var i :| 0 <= i < |outputs| && outputs[i] == o;
      var k :| 0 <= k < |outputs| && outputs[k] == o';
    }
    forall o, e | o in outputs && e in o.entries
      ensures exists f :: f in j.inputs0 + j.inputs1 && e in f.entries
    {
      ContentsMembers(outputs, e);
      assert e in input;
    }
  }

  lemma InputBounded(st: Store, level: nat, inputs0: seq<FileMeta>, inputs1: seq<FileMeta>, input: seq<Entry>)
    requires Stored(st.version) && level + 1 < |st.version| && Merged(input, inputs0 + inputs1)
    requires InputsOk(st.version, level, inputs0, inputs1)
    ensures forall e :: e in input ==> e.key.sequence <= MAX_SEQUENCE
  {
    forall e | e in input
      ensures e.key.sequence <= MAX_SEQUENCE
    {
      var f :| f in inputs0 + inputs1 && e in f.entries;
      assert f in st.version[level] || f in st.version[level + 1];
      EntryBounds(f, e);
    }
  }

  /** The version a compaction installs: sound, with known numbers, and with exactly the kept entries. */
  lemma FinishVersion(st: Store, j: Job, input: seq<Entry>, outputs: seq<FileMeta>, v': Version)
    requires Stored(st.version) && FilesBelow(st) && Merged(input, j.inputs0 + j.inputs1)
    requires j.level + 1 < |st.version| && InputsOk(st.version, j.level, j.inputs0, j.inputs1)
    requires Contents(outputs) == Kept(st.version, j.level, input, j.snap) && Tables(outputs, st.nextFile)
    requires v' == LogAndApply(st.version, CompactionEdit(j.level, j.inputs0, j.inputs1, outputs))
    ensures Stored(v')
    ensures forall l, f :: 0 <= l < |v'| && f in v'[l] ==> f.number < st.nextFile + |outputs|
    ensures AllEntries(st.version) == RestEntries(st.version, j.level, j.inputs0, j.inputs1) + EntrySet(input)
    ensures AllEntries(v') == RestEntries(st.version, j.level, j.inputs0, j.inputs1) + EntrySet(Contents(outputs))
  {
    hide Stored, InputsOk, OutputsOk, Replaced, Merged, FilesBelow, RestEntries;
    InputBounded(st, j.level, j.inputs0, j.inputs1, input);
    FinishOutputsOk(st, j, input, outputs);
    InstallKeepsStored(st.version, j.level, j.inputs0, j.inputs1, outputs);
    ReplacedEntries(st.version, j.level, j.inputs0, j.inputs1, input, outputs, v');
    FinishNumbers(st, j, outputs, v');
  }

  lemma FinishNumbers(st: Store, j: Job, outputs: seq<FileMeta>, v': Version)
    requires FilesBelow(st) && Tables(outputs, st.nextFile)
    requires Replaced(st.version, j.level, j.inputs0, j.inputs1, outputs, v')
    ensures forall l, f :: 0 <= l < |v'| && f in v'[l] ==> f.number < st.nextFile + |outputs|
  {
    forall l, f | 0 <= l < |v'| && f in v'[l]
      ensures f.number < st.nextFile + |outputs|
    {
      if f in outputs {
        var i :| 0 <= i < |outputs| && outputs[i] == f;
      } else {
        assert f in st.version[l];
      }
    }
  }

  lemma FinishKeepsInv(st: Store, st': Store, input: seq<Entry>, outputs: seq<FileMeta>)
    requires Inv(st) && FinishStep(st, st', input, outputs)
    ensures Inv(st')
  {
    hide Stored, MemoryOk, Faithful, Merged, Kept, RestEntries, LeftAlone, Uncovers, Tables, Exposes, Selected;
    JobInputsOk(st);
    NothingUncovered(st, st', input, outputs);
    MergedSorted(input, st.job.value.inputs0 + st.job.value.inputs1);
    FinishVersion(st, st.job.value, input, outputs, st'.version);
    FinishKeepsMemory(st, st', st.job.value, input, outputs);
    FinishFaithful(st, st', st.job.value, input, outputs);
  }

  lemma NothingUncovered(st: Store, st': Store, input: seq<Entry>, outputs: seq<FileMeta>)
    requires Inv(st) && FinishStep(st, st', input, outputs)
    ensures var j := st.job.value;
            forall u :: !Uncovers(st.version, j.level, input, j.snap, LeftAlone(st, j.level, j.inputs0, j.inputs1), u)
  {
    hide Inv, Merged, Kept, LeftAlone, Uncovers, Tables, Exposes;
    var j := st.job.value;
    forall u
      ensures !Uncovers(st.version, j.level, input, j.snap, LeftAlone(st, j.level, j.inputs0, j.inputs1), u)
    {
      UncoversIffExposes(st, j, input, u);
    }
  }

  lemma MergedSorted(input: seq<Entry>, files: seq<FileMeta>)
    requires Merged(input, files)
    ensures SortedEntries(input)
  {
  }

  lemma FinishKeepsMemory(st: Store, st': Store, j: Job, input: seq<Entry>, outputs: seq<FileMeta>)
    requires MemoryOk(st) && SortedEntries(input)
    requires st'.mem == st.mem && st'.imm == st.imm && st'.lastSequence == st.lastSequence
    requires AllEntries(st.version) == RestEntries(st.version, j.level, j.inputs0, j.inputs1) + EntrySet(input)
    requires AllEntries(st'.version)
              == RestEntries(st.version, j.level, j.inputs0, j.inputs1) + EntrySet(Contents(outputs))
    requires Contents(outputs) == Kept(st.version, j.level, input, j.snap)
    ensures MemoryOk(st')
  {
    KeptSorted(st.version, j.level, input, j.snap);
    assert AllEntries(st'.version) <= AllEntries(st.version);
    assert MemoryEntries(st') == MemoryEntries(st);
  }

  lemma FinishFaithful(st: Store, st': Store, j: Job, input: seq<Entry>, outputs: seq<FileMeta>)
    requires Stored(st.version) && MemoryOk(st) && Faithful(st) && SortedEntries(input) && j.snap <= Oldest(st)
    requires st'.mem == st.mem && st'.imm == st.imm && Oldest(st') == Oldest(st) && st'.written == st.written
    requires AllEntries(st.version) == RestEntries(st.version, j.level, j.inputs0, j.inputs1) + EntrySet(input)
    requires AllEntries(st'.version)
              == RestEntries(st.version, j.level, j.inputs0, j.inputs1) + EntrySet(Contents(outputs))
    requires Contents(outputs) == Kept(st.version, j.level, input, j.snap)
    requires forall u :: !Uncovers(st.version, j.level, input, j.snap, LeftAlone(st, j.level, j.inputs0, j.inputs1), u)
    ensures Faithful(st')
  {
    var rest := LeftAlone(st, j.level, j.inputs0, j.inputs1);
    LiveSplit(st, st', j, input, Contents(outputs));
    LiveDistinct(st);
    forall u, s | Oldest(st') <= s
      ensures Read(Live(st'), u, s) == Read(st'.written, u, s)
    {
      CoveredReads(st.version, j.level, input, j.snap, rest, u, s);
    }
  }

  lemma LiveSplit(st: Store, st': Store, j: Job, input: seq<Entry>, kept: seq<Entry>)
    requires st'.mem == st.mem && st'.imm == st.imm
    requires AllEntries(st.version) == RestEntries(st.version, j.level, j.inputs0, j.inputs1) + EntrySet(input)
    requires AllEntries(st'.version) == RestEntries(st.version, j.level, j.inputs0, j.inputs1) + EntrySet(kept)
    ensures Live(st) == LeftAlone(st, j.level, j.inputs0, j.inputs1) + EntrySet(input)
    ensures Live(st') == LeftAlone(st, j.level, j.inputs0, j.inputs1) + EntrySet(kept)
  {
  }

  lemma MoveInputs(v: Version, level: nat, f: FileMeta)
    requires Stored(v) && level + 1 < |v| && Selected(v, level, [f], [])
    ensures f in v[level] && InputsOk(v, level, [f], [])
  {
    StoredIsOk(v);
    SelectedIsInputsOk(v, level, [f], []);
    assert f in [f];
  }

  lemma SingleMerged(v: Version, level: nat, f: FileMeta)
    requires Stored(v) && level < |v| && f in v[level]
    ensures Merged(f.entries, [f] + []) && Contents([f]) == f.entries
  {
    assert FileOk(f);
    assert f in [f] + [];
    assert [f][..0] == [];
  }

  lemma MoveVersion(st: Store, level: nat, f: FileMeta, v': Version)
    requires Stored(st.version) && FilesBelow(st) && level + 1 < |st.version|
    requires f in st.version[level] && InputsOk(st.version, level, [f], [])
    requires v' == LogAndApply(st.version, CompactionEdit(level, [f], [], [f]))
    ensures Stored(v') && AllEntries(v') == AllEntries(st.version)
    ensures forall l, g :: 0 <= l < |v'| && g in v'[l] ==> g.number < st.nextFile
  {
    hide Stored, InputsOk, OutputsOk, Merged, RestEntries;
    MoveOutputsOk(st.version, level, f);
    InstallKeepsStored(st.version, level, [f], [], [f]);
    SingleMerged(st.version, level, f);
    ReplacedEntries(st.version, level, [f], [], f.entries, [f], v');
  }

  lemma MoveKeepsInv(st: Store, st': Store, level: nat, f: FileMeta)
    requires Inv(st) && MoveStep(st, st', level, f)
    ensures Inv(st')
  {
    hide Stored, Selected;
    MoveInputs(st.version, level, f);
    MoveVersion(st, level, f, st'.version);
    assert Live(st') == Live(st);
  }

  // ---- snapshots ----

  lemma SnapshotKeepsInv(st: Store, st': Store)
    requires Inv(st) && TakeSnapshotStep(st, st')
    ensures Inv(st')
  {
    hide Stored, Selected;
    assert Live(st') == Live(st);
  }

  lemma ReleaseKeepsInv(st: Store, st': Store, i: nat)
    requires Inv(st) && ReleaseSnapshotStep(st, st', i)
    ensures Inv(st')
  {
    hide Stored, Selected;
    assert Live(st') == Live(st);
    assert Oldest(st) <= Oldest(st');
  }

  lemma BeginKeepsInv(st: Store, st': Store, level: nat, inputs0: seq<FileMeta>, inputs1: seq<FileMeta>)
    requires Inv(st) && BeginStep(st, st', level, inputs0, inputs1)
    ensures Inv(st')
  {
    hide Stored, Selected;
    assert Live(st') == Live(st);
  }

  lemma AbandonKeepsInv(st: Store, st': Store)
    requires Inv(st) && AbandonStep(st, st')
    ensures Inv(st')
  {
    hide Stored, Selected;
    assert Live(st') == Live(st);
  }

  /** A running compaction may fail at any moment; that ends it and changes nothing else. */
  lemma JobMayFail(st: Store)
    requires st.job.Some?
    ensures Next(st, st.(job := None))
  {
    hide WriteStep, BeginStep, FlushStep, MoveStep, FinishStep;
    assert AbandonStep(st, st.(job := None));
  }

  /** A step takes one snapshot, of the present, or gives up one, or leaves them all as they are; and a compaction
      starts with the oldest one, or with the present if there is none, and keeps that and its inputs until it ends. */
  lemma SnapshotsAreKept(st: Store, st': Store)
    requires Next(st, st')
    ensures || multiset(st'.snapshots) == multiset(st.snapshots)
            || multiset(st'.snapshots) == multiset(st.snapshots) + multiset{st.lastSequence}
            || exists s :: s in st.snapshots && multiset(st.snapshots) == multiset(st'.snapshots) + multiset{s}
    ensures st.job.Some? ==> st'.job == st.job || st'.job == None
    ensures st.job.None? && st'.job.Some? ==>
              st'.job.value.snap == if st.snapshots == [] then st.lastSequence else st.snapshots[0]
  {
    hide OtherStep, FinishStep;
    if OtherStep(st, st') {
      OtherStepKeepsSnapshots(st, st');
    } else {
      var input, outputs :| FinishStep(st, st', input, outputs);
      FinishEndsJob(st, st', input, outputs);
    }
  }

  lemma FinishEndsJob(st: Store, st': Store, input: seq<Entry>, outputs: seq<FileMeta>)
    requires FinishStep(st, st', input, outputs)
    ensures st'.snapshots == st.snapshots && st'.job == None && st.job.Some?
  {
    hide Merged, LogAndApply, Exposes, Contents, Kept, Tables, CompactionEdit;
  }

  lemma OtherStepKeepsSnapshots(st: Store, st': Store)
    requires OtherStep(st, st')
    ensures || multiset(st'.snapshots) == multiset(st.snapshots)
            || multiset(st'.snapshots) == multiset(st.snapshots) + multiset{st.lastSequence}
            || exists s :: s in st.snapshots && multiset(st.snapshots) == multiset(st'.snapshots) + multiset{s}
    ensures st.job.Some? ==> st'.job == st.job || st'.job == None
    ensures st.job.None? && st'.job.Some? ==>
              st'.job.value.snap == if st.snapshots == [] then st.lastSequence else st.snapshots[0]
  {
    hide WriteStep, SwitchMemStep, BeginStep, AbandonStep, TakeSnapshotStep, ReleaseSnapshotStep, FlushStep, MoveStep;
    if ops :| WriteStep(st, st', ops) {
      WriteKeepsJob(st, st', ops);
    } else if i: nat :| ReleaseSnapshotStep(st, st', i) {
      ReleasesOne(st, st', i);
    } else if level: nat, inputs0, inputs1 :| BeginStep(st, st', level, inputs0, inputs1) {
      BeginsWithOldest(st, st', level, inputs0, inputs1);
    } else if level: nat, size: nat :| FlushStep(st, st', level, size) {
      FlushKeepsJob(st, st', level, size);
    } else if level: nat, f :| MoveStep(st, st', level, f) {
      MoveKeepsJob(st, st', level, f);
    } else {
      SimpleKeepsSnapshots(st, st');
    }
  }

  lemma ReleasesOne(st: Store, st': Store, i: nat)
    requires ReleaseSnapshotStep(st, st', i)
    ensures st.snapshots[i] in st.snapshots && st'.job == st.job
    ensures multiset(st.snapshots) == multiset(st'.snapshots) + multiset{st.snapshots[i]}
  {
    assert st.snapshots == st.snapshots[..i] + [st.snapshots[i]] + st.snapshots[i + 1..];
  }

  lemma BeginsWithOldest(st: Store, st': Store, level: nat, inputs0: seq<FileMeta>, inputs1: seq<FileMeta>)
    requires BeginStep(st, st', level, inputs0, inputs1)
    ensures st.job.None? && st'.snapshots == st.snapshots && st'.job.Some?
    ensures st'.job.value.snap == if st.snapshots == [] then st.lastSequence else st.snapshots[0]
  {
    hide Selected;
  }

  lemma WriteKeepsJob(st: Store, st': Store, ops: seq<Op>)
    requires WriteStep(st, st', ops)
    ensures st'.snapshots == st.snapshots && st'.job == st.job
  {
    hide SortedEntries;
  }

  lemma FlushKeepsJob(st: Store, st': Store, level: nat, size: nat)
    requires FlushStep(st, st', level, size)
    ensures st'.snapshots == st.snapshots && st'.job == st.job
  {
    hide Picked, LogAndApply;
  }

  lemma MoveKeepsJob(st: Store, st': Store, level: nat, f: FileMeta)
    requires MoveStep(st, st', level, f)
    ensures st'.snapshots == st.snapshots && st'.job == st.job
  {
    hide Selected, LogAndApply;
  }

  lemma SimpleKeepsSnapshots(st: Store, st': Store)
    requires SwitchMemStep(st, st') || AbandonStep(st, st') || TakeSnapshotStep(st, st')
    ensures || multiset(st'.snapshots) == multiset(st.snapshots)
            || multiset(st'.snapshots) == multiset(st.snapshots) + multiset{st.lastSequence}
    ensures st'.job == st.job || (st.job.Some? && st'.job == None)
  {
  }

  lemma NextKeepsInv(st: Store, st': Store)
    requires Inv(st) && Next(st, st')
    ensures Inv(st')
  {
    hide Inv, OtherStep, FinishStep;
    if input, outputs :| FinishStep(st, st', input, outputs) {
      FinishKeepsInv(st, st', input, outputs);
    } else {
      OtherStepKeepsInv(st, st');
    }
  }

  lemma OtherStepKeepsInv(st: Store, st': Store)
    requires Inv(st) && OtherStep(st, st')
    ensures Inv(st')
  {
    hide Inv, WriteStep, FlushStep, MoveStep;
    if ops :| WriteStep(st, st', ops) {
      WriteKeepsInv(st, st', ops);
    } else if SwitchMemStep(st, st') {
      SwitchKeepsInv(st, st');
    } else if level, size :| FlushStep(st, st', level, size) {
      FlushKeepsInv(st, st', level, size);
    } else if level, f :| MoveStep(st, st', level, f) {
      MoveKeepsInv(st, st', level, f);
    } else if level, inputs0, inputs1 :| BeginStep(st, st', level, inputs0, inputs1) {
      BeginKeepsInv(st, st', level, inputs0, inputs1);
    } else if AbandonStep(st, st') {
      AbandonKeepsInv(st, st');
    } else if TakeSnapshotStep(st, st') {
      SnapshotKeepsInv(st, st');
    } else {
      var i :| ReleaseSnapshotStep(st, st', i);
      ReleaseKeepsInv(st, st', i);
    }
  }

  lemma InitInv(st: Store)
    requires Init(st)
    ensures Inv(st)
  {
    EmptyStored();
    assert Live(st) == {};
  }

  lemma EmptyStored()
    ensures Stored(EmptyVersion) && AllEntries(EmptyVersion) == {}
  {
    forall l | 0 <= l < |EmptyVersion|
      ensures EmptyVersion[l] == []
    {
    }
  }

  /** Every state of every run satisfies the invariant. */
  lemma {:induction false} RunInv(run: seq<Store>, i: nat)
    requires Run(run) && i < |run|
    ensures Inv(run[i])
  {
    if i == 0 {
      InitInv(run[0]);
    } else {
      RunInv(run, i - 1);
      assert Next(run[i - 1], run[i - 1 + 1]);
      NextKeepsInv(run[i - 1], run[i]);
    }
  }

  // ---- runs guarded by file bounds alone ----

  /** The end of a compaction whose next-level inputs share no user key with the file behind them. */
  ghost predicate ApartFinish(st: Store, st': Store, input: seq<Entry>, outputs: seq<FileMeta>) {
    && st.job.Some? && |st.version| == NUM_LEVELS && Installed(st, st', st.job.value, input, outputs)
    && st.job.value.level + 1 < |st.version|
    && NextLevelApart(st.version, st.job.value.level, st.job.value.inputs1)
  }

  ghost predicate ApartNext(st: Store, st': Store) {
    OtherStep(st, st') || exists input, outputs :: ApartFinish(st, st', input, outputs)
  }

  ghost predicate ApartRun(run: seq<Store>) {
    |run| > 0 && Init(run[0]) && forall i :: 0 <= i < |run| - 1 ==> ApartNext(run[i], run[i + 1])
  }

  lemma ApartRunIsRun(run: seq<Store>)
    requires ApartRun(run)
    ensures Run(run)
  {
    hide ApartNext, Next, Init;
    forall i | 0 <= i < |run| - 1
      ensures Next(run[i], run[i + 1])
    {
      ApartNextIsNext(run[i], run[i + 1]);
    }
  }

  lemma ApartNextIsNext(st: Store, st': Store)
    requires ApartNext(st, st')
    ensures Next(st, st')
  {
    hide OtherStep, ApartFinish, FinishStep;
    if input, outputs :| ApartFinish(st, st', input, outputs) {
      ApartIsFinish(st, st', input, outputs);
    }
  }

  lemma ApartIsFinish(st: Store, st': Store, input: seq<Entry>, outputs: seq<FileMeta>)
    requires ApartFinish(st, st', input, outputs)
    ensures FinishStep(st, st', input, outputs)
  {
    hide Installed, NextLevelApart, Exposes;
    forall u
      ensures !Exposes(st, st.job.value, input, u)
    {
      ApartNeverExposes(st, st.job.value, input, u);
    }
  }

  /** Over every run whose compactions leave out no boundary file of the next level, what is left answers every read at
      or above the oldest snapshot as the complete history does. */
  lemma ApartRunReads(run: seq<Store>, i: nat, u: UserKey, s: nat)
    requires ApartRun(run) && i < |run| && Oldest(run[i]) <= s
    ensures Inv(run[i]) && Read(Live(run[i]), u, s) == Read(run[i].written, u, s)
  {
    hide ApartRun, Run, MemoryOk, Stored, JobOk;
    ApartRunIsRun(run);
    RunInv(run, i);
  }

  // ---- reading ----

  /** DBImpl::Get: the memtable, then the immutable memtable, then the version. */
  method Get(st: Store, u: UserKey, s: nat) returns (r: Answer)
    requires Inv(st) && Oldest(st) <= s <= st.lastSequence
    ensures r == Read(st.written, u, s)
  {
    StoredIsOk(st.version);
    LiveDistinct(st);
    assert Read(Live(st), u, s) == Read(st.written, u, s);
    var hit := SearchEntries(st.mem, u, s);
    if hit.Some? {
      MemoryAnswers(st, u, s, hit.value);
      return Outcome(hit.value);
    }
    hit := SearchEntries(ImmEntries(st), u, s);
    if hit.Some? {
      MemoryAnswers(st, u, s, hit.value);
      return Outcome(hit.value);
    }
    r := Versions.Get(st.version, u, s);
    VersionAnswers(st, u, s);
  }

  lemma MemoryAnswers(st: Store, u: UserKey, s: nat, e: Entry)
    requires MemoryOk(st) && DistinctSeq(Live(st))
    requires Newest(EntrySet(st.mem), u, s, e)
             || (NoneVisible(EntrySet(st.mem), u, s) && Newest(EntrySet(ImmEntries(st)), u, s, e))
    ensures Read(Live(st), u, s) == Outcome(e)
  {
    assert Newest(Live(st), u, s, e);
    ReadIsNewest(Live(st), u, s, e);
  }

  lemma VersionAnswers(st: Store, u: UserKey, s: nat)
    requires DistinctSeq(Live(st)) && NoneVisible(MemoryEntries(st), u, s)
    ensures Read(Live(st), u, s) == Read(AllEntries(st.version), u, s)
  {
    var e := ReadCases(Live(st), u, s);
    if e.None? {
      ReadNothing(AllEntries(st.version), u, s);
    } else {
      assert Newest(AllEntries(st.version), u, s, e.value);
      ReadIsNewest(AllEntries(st.version), u, s, e.value);
    }
  }

  // ---- what a snapshot holder sees over time ----

  ghost predicate Grown(st: Store, st': Store) {
    && st.lastSequence <= st'.lastSequence && st.written <= st'.written
    && forall e :: e in st'.written && e !in st.written ==> e.key.sequence > st.lastSequence
  }

  lemma NextGrows(st: Store, st': Store)
    requires Next(st, st')
    ensures Grown(st, st')
  {
    hide LogAndApply, TableOf, Selected;
    if ops :| WriteStep(st, st', ops) {
      BatchFacts(ops, st.lastSequence);
    }
  }

  lemma {:induction false} RunGrows(run: seq<Store>, i: nat, j: nat)
    requires Run(run) && i <= j < |run|
    ensures Grown(run[i], run[j])
  {
    hide Next;
    if i < j {
      RunGrows(run, i, j - 1);
      assert Next(run[j - 1], run[j - 1 + 1]);
      NextGrows(run[j - 1], run[j]);
    }
  }

  /** However the store flushes, moves and compacts in between, a read at a snapshot that is still held answers
      what it answered when the snapshot was current, and that is what the history says. */
  lemma SnapshotReadsAreStable(run: seq<Store>, i: nat, j: nat, u: UserKey, s: nat)
    requires Run(run) && i <= j < |run|
    requires Oldest(run[i]) <= s <= run[i].lastSequence && Oldest(run[j]) <= s
    ensures Read(Live(run[j]), u, s) == Read(Live(run[i]), u, s) == Read(run[i].written, u, s)
  {
    RunInv(run, i);
    RunInv(run, j);
    RunGrows(run, i, j);
    var newer := run[j].written - run[i].written;
    assert run[j].written == run[i].written + newer;
    ReadGrows(run[i].written, newer, run[i].lastSequence, u, s);
  }
}
