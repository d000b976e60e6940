/** The store as a state machine: writes, flushes, moves, compactions and snapshots, and the invariant. */
module Stores {
  import opened Basics
  import opened InternalKeys
  import opened Versions
  import opened Inputs
  import opened Builders
  import opened Compactions
  import opened Installs

  /** A compaction that has picked its inputs and its smallest snapshot and now runs without the mutex. */
  datatype Job = Job(level: nat, inputs0: seq<FileMeta>, inputs1: seq<FileMeta>, snap: nat)

  /** written is the history: every entry any write ever produced. */
  datatype Store = Store(mem: seq<Entry>, imm: Option<seq<Entry>>, version: Version, lastSequence: nat,
                         snapshots: seq<nat>, nextFile: nat, job: Option<Job>, written: set<Entry>)

  function ImmEntries(st: Store): seq<Entry> {
    if st.imm.Some? then st.imm.value else []
  }

  ghost function MemoryEntries(st: Store): set<Entry> {
    EntrySet(st.mem) + EntrySet(ImmEntries(st))
  }

  ghost function Live(st: Store): set<Entry> {
    MemoryEntries(st) + AllEntries(st.version)
  }

  /** The oldest snapshot a reader may still hold or take. */
  function Oldest(st: Store): nat {
    if st.snapshots == [] then st.lastSequence else st.snapshots[0]
  }

  // ---- the invariant ----

  ghost predicate Above(a: set<Entry>, b: set<Entry>) {
    forall e, x :: e in a && x in b ==> e.key.sequence > x.key.sequence
  }

  ghost predicate BoundedBy(a: set<Entry>, last: nat) {
    forall e :: e in a ==> e.key.sequence <= last
  }

  ghost predicate MemoryOk(st: Store) {
    && SortedEntries(st.mem) && SortedEntries(ImmEntries(st))
    && Above(EntrySet(st.mem), EntrySet(ImmEntries(st)))
    && Above(MemoryEntries(st), AllEntries(st.version))
    && BoundedBy(Live(st), st.lastSequence) && st.lastSequence < MAX_SEQUENCE
  }

  ghost predicate FilesBelow(st: Store) {
    forall l, f :: 0 <= l < |st.version| && f in st.version[l] ==> f.number < st.nextFile
  }

  predicate SnapshotsOk(st: Store) {
    && (forall i, j :: 0 <= i < j < |st.snapshots| ==> st.snapshots[i] <= st.snapshots[j])
    && (forall i :: 0 <= i < |st.snapshots| ==> st.snapshots[i] <= st.lastSequence)
  }

  ghost predicate JobOk(st: Store) {
    st.job.Some? ==>
      && st.job.value.level + 1 < |st.version|
      && Selected(st.version, st.job.value.level, st.job.value.inputs0, st.job.value.inputs1)
      && st.job.value.snap <= Oldest(st)
  }

  /** Reading what is left answers every admissible read as reading the whole history would. */
  ghost predicate Faithful(st: Store) {
    forall u, s :: Oldest(st) <= s ==> Read(Live(st), u, s) == Read(st.written, u, s)
  }

  ghost predicate Inv(st: Store) {
    && Stored(st.version) && MemoryOk(st) && FilesBelow(st) && SnapshotsOk(st) && JobOk(st)
    && DistinctSeq(st.written) && BoundedBy(st.written, st.lastSequence)
    && Faithful(st)
  }

  // ---- the steps ----

  predicate Init(st: Store) {
    st == Store([], None, EmptyVersion, 0, [], 2, None, {})
  }

  datatype Op = Put(user: UserKey, val: Bytes) | Delete(user: UserKey)

  /** The entry the i-th operation of a batch inserts. */
  function OpEntry(op: Op, sequence: nat): Entry {
    match op
    case Put(u, val) => Entry(InternalKey(u, sequence, Value), val)
    case Delete(u) => Entry(InternalKey(u, sequence, Deletion), "")
  }

  ghost function BatchEntries(ops: seq<Op>, last: nat): set<Entry> {
    set i | 0 <= i < |ops| :: OpEntry(ops[i], last + 1 + i)
  }

  /** A batch gets the next sequence numbers and goes into the memtable, which stays sorted. */
  ghost predicate WriteStep(st: Store, st': Store, ops: seq<Op>) {
    && st.lastSequence + |ops| < MAX_SEQUENCE
    && st' == st.(mem := st'.mem, lastSequence := st.lastSequence + |ops|,
                  written := st.written + BatchEntries(ops, st.lastSequence))
    && SortedEntries(st'.mem) && EntrySet(st'.mem) == EntrySet(st.mem) + BatchEntries(ops, st.lastSequence)
  }

  predicate SwitchMemStep(st: Store, st': Store) {
    st.imm.None? && st' == st.(imm := Some(st.mem), mem := [])
  }

  /** The immutable memtable becomes a table at level 0, or at the level PickLevelForMemTableOutput chooses. */
  ghost predicate FlushStep(st: Store, st': Store, level: nat, size: nat) {
    && st.imm.Some? && st.job.None? && |st.version| == NUM_LEVELS
    && if st.imm.value == [] then st' == st.(imm := None)
       else FlushInto(st, st', level, TableOf(st.nextFile, size, st.imm.value))
  }

  ghost predicate FlushInto(st: Store, st': Store, level: nat, f: FileMeta)
    requires |st.version| == NUM_LEVELS
  {
    && (level == 0 || exists limit :: Picked(st.version, f.smallest.user, f.largest.user, limit, level))
    && st' == st.(imm := None, version := LogAndApply(st.version, AddEdit(level, f)), nextFile := st.nextFile + 1)
  }

  ghost predicate MoveStep(st: Store, st': Store, level: nat, f: FileMeta) {
    && st.job.None? && level + 1 < |st.version| == NUM_LEVELS && Selected(st.version, level, [f], [])
    && st' == st.(version := LogAndApply(st.version, CompactionEdit(level, [f], [], [f])))
  }

  ghost predicate BeginStep(st: Store, st': Store, level: nat, inputs0: seq<FileMeta>, inputs1: seq<FileMeta>) {
    && st.job.None? && level + 1 < |st.version| == NUM_LEVELS && Selected(st.version, level, inputs0, inputs1)
    && st' == st.(job := Some(Job(level, inputs0, inputs1, Oldest(st))))
  }

  /** The sorted stream the merging iterator makes of the input tables. */
  ghost predicate Merged(input: seq<Entry>, files: seq<FileMeta>) {
    SortedEntries(input) && forall e :: e in input <==> exists f :: f in files && e in f.entries
  }

  /** Everything a read can see except the compaction's inputs. */
  ghost function LeftAlone(st: Store, level: nat, inputs0: seq<FileMeta>, inputs1: seq<FileMeta>): set<Entry> {
    MemoryEntries(st) + RestEntries(st.version, level, inputs0, inputs1)
  }

  ghost predicate Left(v: Version, level: nat, inputs0: seq<FileMeta>, inputs1: seq<FileMeta>, l: nat, f: FileMeta) {
    l < |v| && f in v[l] && !(l == level && f in inputs0) && !(l == level + 1 && f in inputs1)
  }

  ghost function RestEntries(v: Version, level: nat, inputs0: seq<FileMeta>, inputs1: seq<FileMeta>): set<Entry> {
    set l, f, e | 0 <= l < |v| && f in v[l] && Left(v, level, inputs0, inputs1, l, f) && e in f.entries :: e
  }

  // ---- what a compaction may bring to light ----

  /** The next-level files i and i + 1 meet in user key u, and only the first of them is an input. The second one's
      first entry, its newest of u, is a value. */
  predicate Straddles(v: Version, level: nat, inputs1: seq<FileMeta>, i: nat, u: UserKey)
    requires level + 1 < |v|
  {
    && i + 1 < |v[level + 1]| && v[level + 1][i] in inputs1 && v[level + 1][i + 1] !in inputs1
    && v[level + 1][i].largest.user == u == v[level + 1][i + 1].smallest.user
    && v[level + 1][i + 1].entries != [] && v[level + 1][i + 1].entries[0].key.kind.Value?
  }

  /** Neither the memtables nor the files left out down to the compaction's level have an entry of u that the smallest
      snapshot sees. */
  ghost predicate NothingAbove(st: Store, j: Job, u: UserKey) {
    && NoneVisible(MemoryEntries(st), u, j.snap)
    && forall l: nat, f :: l <= j.level && Left(st.version, j.level, j.inputs0, j.inputs1, l, f) ==>
         NoneVisible(EntrySet(f.entries), u, j.snap)
  }

  /** Of u, the inputs' newest entry that the smallest snapshot sees is a deletion to be dropped as obsolete, the next
      level goes on behind the inputs with a value of u, and nothing above hides that value. */
  ghost predicate Exposes(st: Store, j: Job, input: seq<Entry>, u: UserKey) {
    && j.level + 1 < |st.version|
    && (exists d :: Newest(EntrySet(input), u, j.snap, d) && Obsolete(st.version, j.level, d, j.snap))
    && (exists i: nat :: Straddles(st.version, j.level, j.inputs1, i, u))
    && NothingAbove(st, j, u)
  }

  /** No next-level file left out starts with a user key that a next-level input ends with. */
  predicate NextLevelApart(v: Version, level: nat, inputs1: seq<FileMeta>)
    requires level + 1 < |v|
  {
    forall f, g :: f in inputs1 && g in v[level + 1] && g !in inputs1 ==> g.smallest.user != f.largest.user
  }

  /** The outputs of DoCompactionWork replace its inputs. */
  ghost predicate Installed(st: Store, st': Store, j: Job, input: seq<Entry>, outputs: seq<FileMeta>)
    requires |st.version| == NUM_LEVELS
  {
    && Merged(input, j.inputs0 + j.inputs1)
    && Contents(outputs) == Kept(st.version, j.level, input, j.snap) && Tables(outputs, st.nextFile)
    && st' == st.(version := LogAndApply(st.version, CompactionEdit(j.level, j.inputs0, j.inputs1, outputs)),
                  nextFile := st.nextFile + |outputs|, job := None)
  }

  /** A compaction that exposes no key is finished. */
  ghost predicate FinishStep(st: Store, st': Store, input: seq<Entry>, outputs: seq<FileMeta>) {
    && st.job.Some? && |st.version| == NUM_LEVELS && Installed(st, st', st.job.value, input, outputs)
    && forall u :: !Exposes(st, st.job.value, input, u)
  }

  /** A failed compaction leaves the version as it was. */
  predicate AbandonStep(st: Store, st': Store) {
    st.job.Some? && st' == st.(job := None)
  }

  predicate TakeSnapshotStep(st: Store, st': Store) {
    st' == st.(snapshots := st.snapshots + [st.lastSequence])
  }

  predicate ReleaseSnapshotStep(st: Store, st': Store, i: nat) {
    i < |st.snapshots| && st' == st.(snapshots := st.snapshots[..i] + st.snapshots[i + 1..])
  }

  /** The steps that install no version. */
  ghost predicate QuietStep(st: Store, st': Store) {
    || (exists ops :: WriteStep(st, st', ops))
    || SwitchMemStep(st, st')
    || (exists level, inputs0, inputs1 :: BeginStep(st, st', level, inputs0, inputs1))
    || AbandonStep(st, st')
    || TakeSnapshotStep(st, st')
    || (exists i :: ReleaseSnapshotStep(st, st', i))
  }

  /** Every step but the end of a compaction. */
  ghost predicate OtherStep(st: Store, st': Store) {
    || QuietStep(st, st')
    || (exists level, size :: FlushStep(st, st', level, size))
    || (exists level, f :: MoveStep(st, st', level, f))
  }

  ghost predicate Next(st: Store, st': Store) {
    OtherStep(st, st') || exists input, outputs :: FinishStep(st, st', input, outputs)
  }

  ghost predicate Run(run: seq<Store>) {
    && |run| > 0 && Init(run[0])
    && forall i :: 0 <= i < |run| - 1 ==> Next(run[i], run[i + 1])
  }

  // ---- entries of a version, by membership ----

  lemma EntryIn(v: Version, e: Entry)
    ensures e in AllEntries(v) <==> exists l, f :: 0 <= l < |v| && f in v[l] && e in f.entries
  {
    if e in AllEntries(v) {
      var l, i := Locate(v, e);
      assert v[l][i] in v[l];
    }
    if l, f :| 0 <= l < |v| && f in v[l] && e in f.entries {
      assert v[l] in v;
    }
  }

  lemma LiveDistinct(st: Store)
    requires Stored(st.version) && MemoryOk(st)
    ensures DistinctSeq(Live(st))
  {
    StoredIsOk(st.version);
    VersionDistinct(st.version);
    SortedDistinct(st.mem);
    SortedDistinct(ImmEntries(st));
  }

  lemma RestIn(v: Version, level: nat, inputs0: seq<FileMeta>, inputs1: seq<FileMeta>, e: Entry)
    ensures e in RestEntries(v, level, inputs0, inputs1)
            <==> exists l, f :: Left(v, level, inputs0, inputs1, l, f) && e in f.entries
  {
  }

  lemma JobInputsOk(st: Store)
    requires Stored(st.version) && JobOk(st) && st.job.Some?
    ensures InputsOk(st.version, st.job.value.level, st.job.value.inputs0, st.job.value.inputs1)
  {
    StoredIsOk(st.version);
    SelectedIsInputsOk(st.version, st.job.value.level, st.job.value.inputs0, st.job.value.inputs1);
  }

  lemma EntryBefore(v: Version, level: nat, inputs0: seq<FileMeta>, inputs1: seq<FileMeta>, input: seq<Entry>, e: Entry)
    requires level + 1 < |v| && InputsOk(v, level, inputs0, inputs1) && Merged(input, inputs0 + inputs1)
    ensures e in AllEntries(v) <==> e in RestEntries(v, level, inputs0, inputs1) || e in input
  {
    EntryIn(v, e);
    RestIn(v, level, inputs0, inputs1, e);
    if f :| f in inputs0 + inputs1 && e in f.entries {
      assert f in v[level] || f in v[level + 1];
    }
    if l, f :| 0 <= l < |v| && f in v[l] && e in f.entries {
      assert Left(v, level, inputs0, inputs1, l, f) || f in inputs0 + inputs1;
    }
  }

  /** Before a compaction, reads see its inputs and what it leaves alone. */
  lemma LiveParts(st: Store, j: Job, input: seq<Entry>)
    requires Stored(st.version) && j.level + 1 < |st.version| && InputsOk(st.version, j.level, j.inputs0, j.inputs1)
    requires Merged(input, j.inputs0 + j.inputs1)
    ensures Live(st) == LeftAlone(st, j.level, j.inputs0, j.inputs1) + EntrySet(input)
  {
    forall e
      ensures e in AllEntries(st.version) <==> e in RestEntries(st.version, j.level, j.inputs0, j.inputs1) || e in input
    {
      EntryBefore(st.version, j.level, j.inputs0, j.inputs1, input, e);
    }
  }
}
