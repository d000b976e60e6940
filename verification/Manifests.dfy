/** The manifest: the log of all version edits, and what VersionSet::Recover makes of whatever a crash left of it. */
module Manifests {
  import opened Basics
  import opened InternalKeys
  import opened Versions
  import opened Builders
  import opened VersionEdits
  import LogFormat
  import LogReader

  /** What is found in the table file an edit names. */
  type Files = NewFile -> FileMeta

  function AddedFiles(added: seq<(nat, NewFile)>, files: Files): (r: seq<(nat, FileMeta)>)
    ensures |r| == |added|
  {
    seq(|added|, i requires 0 <= i < |added| => (added[i].0, files(added[i].1)))
  }

  function EditOf(c: Contents, files: Files): Edit {
    Edit((set d | d in c.deleted), AddedFiles(c.added, files))
  }

  function EditsOf(cs: seq<Contents>, files: Files): (r: seq<Edit>)
    ensures |r| == |cs|
  {
    seq(|cs|, i requires 0 <= i < |cs| => EditOf(cs[i], files))
  }

  /** An edit deletes the pairs it lists, and adds what is found in the files it lists, in order. */
  lemma EditSays(c: Contents, files: Files, level: nat, n: nat, i: nat)
    ensures (level, n) in EditOf(c, files).deleted <==> (level, n) in c.deleted
    ensures |EditOf(c, files).added| == |c.added|
    ensures i < |c.added| ==> EditOf(c, files).added[i] == (c.added[i].0, files(c.added[i].1))
  {
  }

  /** The records LogAndApply and WriteSnapshot append. */
  function Records(cs: seq<Contents>): (r: seq<seq<byte>>)
    ensures |r| == |cs|
  {
    seq(|cs|, i requires 0 <= i < |cs| => EncodeItems(ItemsOf(cs[i])))
  }

  /** The counters as the last edit that mentions each of them left them. */
  datatype Counters = Counters(log: Option<nat>, prevLog: Option<nat>, nextFile: Option<nat>, lastSequence: Option<nat>)

  function Later(before: Option<nat>, n: Option<nat>): Option<nat> {
    if n.Some? then n else before
  }

  function Merged(before: Counters, c: Contents): Counters {
    Counters(Later(before.log, c.logNumber), Later(before.prevLog, c.prevLogNumber),
             Later(before.nextFile, c.nextFile), Later(before.lastSequence, c.lastSequence))
  }

  function CountersAfter(cs: seq<Contents>): Counters {
    if cs == [] then Counters(None, None, None, None)
    else Merged(CountersAfter(cs[..|cs| - 1]), cs[|cs| - 1])
  }

  /** No later edit mentions the counter. */
  predicate LastSaid(said: seq<Option<nat>>, i: nat) {
    i < |said| && said[i].Some? && forall j :: i < j < |said| ==> said[j].None?
  }

  function LastOf(said: seq<Option<nat>>): Option<nat> {
    if said == [] then None else Later(LastOf(said[..|said| - 1]), said[|said| - 1])
  }

  /** The value is the one said last, or there is none if nobody says one. */
  lemma {:induction false} LastOfIs(said: seq<Option<nat>>)
    ensures LastOf(said).None? <==> forall i :: 0 <= i < |said| ==> said[i].None?
    ensures forall i: nat :: LastSaid(said, i) ==> LastOf(said) == said[i]
  {
    if said != [] {
      var n := |said| - 1;
      LastOfIs(said[..n]);
      forall i: nat | LastSaid(said, i) && i < n
        ensures LastSaid(said[..n], i)
      {
      }
    }
  }

  /** Each counter is what the last edit that mentions it says. */
  lemma {:induction false} CountersAre(cs: seq<Contents>)
    ensures CountersAfter(cs).log == LastOf(seq(|cs|, i requires 0 <= i < |cs| => cs[i].logNumber))
    ensures CountersAfter(cs).prevLog == LastOf(seq(|cs|, i requires 0 <= i < |cs| => cs[i].prevLogNumber))
    ensures CountersAfter(cs).nextFile == LastOf(seq(|cs|, i requires 0 <= i < |cs| => cs[i].nextFile))
    ensures CountersAfter(cs).lastSequence == LastOf(seq(|cs|, i requires 0 <= i < |cs| => cs[i].lastSequence))
  {
    if cs != [] {
      var n := |cs| - 1;
      CountersAre(cs[..n]);
      assert seq(|cs|, i requires 0 <= i < |cs| => cs[i].logNumber)[..n]
          == seq(n, i requires 0 <= i < n => cs[..n][i].logNumber);
      assert seq(|cs|, i requires 0 <= i < |cs| => cs[i].prevLogNumber)[..n]
          == seq(n, i requires 0 <= i < n => cs[..n][i].prevLogNumber);
      assert seq(|cs|, i requires 0 <= i < |cs| => cs[i].nextFile)[..n]
          == seq(n, i requires 0 <= i < n => cs[..n][i].nextFile);
      assert seq(|cs|, i requires 0 <= i < |cs| => cs[i].lastSequence)[..n]
          == seq(n, i requires 0 <= i < n => cs[..n][i].lastSequence);
    }
  }

  datatype Recovered = Recovered(version: Version, manifestNumber: nat, nextFileNumber: nat, lastSequence: nat,
                                 logNumber: nat, prevLogNumber: nat)

  /** The edits a comparator of this name wrote. */
  predicate Writable(cs: seq<Contents>, name: seq<byte>) {
    forall i :: 0 <= i < |cs| ==> EditFits(cs[i]) && (cs[i].comparator.Some? ==> cs[i].comparator.value == name)
  }

  /** A crash left the first bytes of the manifest of these edits. */
  ghost predicate Left(crc: LogFormat.Checksum, file: seq<byte>, cs: seq<Contents>, name: seq<byte>) {
    Writable(cs, name) && file <= LogFormat.FileOf(crc, Records(cs))
  }

  // ---- decoded edits name levels there are ----

  predicate LevelsOk(c: Contents) {
    (forall d :: d in c.deleted ==> d.0 < NUM_LEVELS) && (forall i :: 0 <= i < |c.added| ==> c.added[i].0 < NUM_LEVELS)
  }

  lemma ItemKeepsLevels(c: Contents, tag: nat, s: seq<byte>)
    requires LevelsOk(c) && GetBody(tag, s).Some?
    ensures LevelsOk(VersionEdits.Apply(c, GetBody(tag, s).value.value))
  {
    hide GetFile;
  }

  lemma {:induction false} DecodedLevels(s: seq<byte>, c: Contents)
    requires LevelsOk(c) && DecodeItems(s, c).Some?
    ensures LevelsOk(DecodeItems(s, c).value)
    decreases |s|
  {
    hide LevelsOk, GetBody, VersionEdits.Apply, Coding.GetVarint32;
    if s != [] {
      var tag := Coding.GetVarint32(s);
      ItemKeepsLevels(c, tag.value.value, tag.value.rest);
      DecodedLevels(GetItem(s).value.rest, VersionEdits.Apply(c, GetItem(s).value.value));
    }
  }

  lemma LevelsInEdit(c: Contents, files: Files)
    requires LevelsOk(c)
    ensures LevelsInRange(EditOf(c, files))
  {
  }

  // ---- recovery ----

  /** One record: decode it and check its comparator. */
  method ReadEdit(record: seq<byte>, name: seq<byte>, ghost written: Option<Contents>) returns (ok: bool, c: Contents)
    ensures ok ==> LevelsOk(c) && (c.comparator.Some? ==> c.comparator.value == name)
    ensures ok ==> DecodeItems(record, Contents(None, None, None, None, None, [], [], [])) == Some(c)
    ensures !ok ==> var r := DecodeItems(record, Contents(None, None, None, None, None, [], [], []));
                    r.None? || (r.value.comparator.Some? && r.value.comparator.value != name)
    ensures written.Some? && Writable([written.value], name) && record == EncodeItems(ItemsOf(written.value)) ==>
              ok && c == written.value
  {
    hide EditFits, EncodeItems, ItemsOf, DecodeItems;
    var edit := new VersionEdit();
    ghost var fresh0 := edit.State();
    ok := edit.DecodeFrom(record);
    c := edit.State();
    if ok {
      if c.comparator.Some? && c.comparator.value != name {
        ok := false;
      }
    }
    if DecodeItems(record, Cleared(fresh0)).Some? {
      DecodedLevels(record, Cleared(fresh0));
    }
    if written.Some? && Writable([written.value], name) && record == EncodeItems(ItemsOf(written.value)) {
      assert [written.value][0] == written.value;
      EditRoundTrip(fresh0, written.value);
      assert fresh0.pointers + written.value.pointers == written.value.pointers;
    }
  }

  /** What the loop has brought together after these edits. */
  ghost predicate Replayed(builder: Builder, last: Counters, cs: seq<Contents>, files: Files)
    reads builder
  {
    && builder.Valid() && builder.base == EmptyVersion && last == CountersAfter(cs)
    && forall l :: 0 <= l < NUM_LEVELS ==>
         && builder.added[l] == AddedAll(EditsOf(cs, files), l)
         && builder.deleted[l] == DeletedAll(EditsOf(cs, files), l)
  }

  lemma NextEdit(cs: seq<Contents>, files: Files, c: Contents)
    ensures EditsOf(cs + [c], files) == EditsOf(cs, files) + [EditOf(c, files)]
    ensures CountersAfter(cs + [c]) == Merged(CountersAfter(cs), c)
  {
    assert (cs + [c])[..|cs|] == cs;
  }

  method ApplyEdit(builder: Builder, last: Counters, c: Contents, files: Files, ghost cs: seq<Contents>)
    requires LevelsOk(c) && Replayed(builder, last, cs, files)
    modifies builder
    ensures Replayed(builder, Merged(last, c), cs + [c], files)
  {
    hide EditOf, EditsOf, AddedAll, DeletedAll, CountersAfter, Merged;
    LevelsInEdit(c, files);
    builder.Apply(EditOf(c, files));
    NextEdit(cs, files, c);
    forall l | 0 <= l < NUM_LEVELS
      ensures builder.added[l] == AddedAll(EditsOf(cs + [c], files), l)
      ensures builder.deleted[l] == DeletedAll(EditsOf(cs + [c], files), l)
    {
      NextLevel(EditsOf(cs, files), EditOf(c, files), l);
    }
  }

  /** The record is this edit, written under a comparator of this name or under none. */
  predicate IsEdit(record: seq<byte>, c: Contents, name: seq<byte>) {
    && DecodeItems(record, Contents(None, None, None, None, None, [], [], [])) == Some(c)
    && (c.comparator.Some? ==> c.comparator.value == name)
  }

  /** The records stand in the file before this place, with right checksums, and are these edits. */
  ghost predicate Holds(crc: LogFormat.Checksum, file: seq<byte>, at: nat, rs: seq<seq<byte>>, cs: seq<Contents>,
                        name: seq<byte>) {
    && LogReader.HasRecords(crc, true, file, at, rs) && |rs| == |cs|
    && forall i :: 0 <= i < |cs| ==> IsEdit(rs[i], cs[i], name)
  }

  /** The loop over the records: every edit goes into the one builder, and its counters over the earlier ones. Whatever
      the bytes, if nothing fails all records read are edits of this comparator; and what a crash left of a manifest is
      read without failure, up to the last edit that is wholly there. */
  method ReadEdits(crc: LogFormat.Checksum, file: seq<byte>, name: seq<byte>, files: Files, builder: Builder,
                   ghost written: seq<Contents>)
    returns (ok: bool, last: Counters, ghost cs: seq<Contents>)
    requires builder.Valid() && builder.base == EmptyVersion
    requires forall l :: 0 <= l < NUM_LEVELS ==> builder.added[l] == [] && builder.deleted[l] == {}
    modifies builder
    ensures ok ==> Replayed(builder, last, cs, files) && exists rs :: Holds(crc, file, |file|, rs, cs, name)
    ensures Left(crc, file, written, name) ==>
              && ok && |cs| <= |written| && cs == written[..|cs|]
              && LogReader.WholeRecords(crc, file, Records(written), |cs|)
  {
    hide LogFormat.FileOf, LogReader.Reader.Valid, LogReader.Reader.AtRecord, LogReader.HasRecords, LogReader.HasRecord;
    hide EditOf, EditFits, AddedAll, DeletedAll, Replayed, Merged, Holds, CountersAfter, EncodeItems, ItemsOf,
         DecodeItems, LevelsOk, LogReader.Reader.AtEndOfLog;
    ghost var left, records := Left(crc, file, written, name), Records(written);
    var reader := new LogReader.Reader(crc, true, file);
    ok, last, cs := true, Counters(None, None, None, None), [];
    ghost var rs: seq<seq<byte>> := [];
    NothingHeld(crc, file, name);
    StartOfFile(crc, reader, builder, written, files);
    while true
      invariant fresh(reader) && reader.Valid() && reader.crc == crc && reader.file == file && reader.checksum
      invariant ok ==> Replayed(builder, last, cs, files)
      invariant ok ==> Holds(crc, file, reader.pos - |reader.buffer|, rs, cs, name)
      invariant left ==> ok && reader.reports == 0 && |cs| <= |written| && reader.AtRecord(records, |cs|)
      invariant left ==> |LogFormat.FileOf(crc, records[..|cs|])| <= |file| && cs == written[..|cs|]
      decreases |file| - (reader.pos - |reader.buffer|)
    {
      LogReader.NotPastEnd(reader);
      ghost var before := reader.pos - |reader.buffer|;
      var got, record := reader.ReadRecord(records, |cs|);
      if ok {
        HeldReaches(crc, file, before, reader.pos - |reader.buffer|, rs, cs, name);
      }
      if reader.reports > 0 {
        ok := false;
      }
      if !got || !ok {
        break;
      }
      var fits, c := ReadEdit(record, name, if left then Some(written[|cs|]) else None);
      if fits {
        ApplyEdit(builder, last, c, files, cs);
        OneMoreHeld(crc, file, before, reader.pos - |reader.buffer|, rs, cs, record, c, name);
        rs, cs := rs + [record], cs + [c];
      } else {
        ok := false;
      }
      last := Merged(last, c);
    }
    if ok {
      LogReader.NotPastEnd(reader);
      HeldReaches(crc, file, reader.pos - |reader.buffer|, |file|, rs, cs, name);
    }
  }

  lemma NothingHeld(crc: LogFormat.Checksum, file: seq<byte>, name: seq<byte>)
    ensures Holds(crc, file, 0, [], [], name)
  {
    LogReader.NoRecords(crc, true, file);
  }

  lemma HeldReaches(crc: LogFormat.Checksum, file: seq<byte>, at: nat, at': nat, rs: seq<seq<byte>>, cs: seq<Contents>,
                    name: seq<byte>)
    requires Holds(crc, file, at, rs, cs, name) && at <= at'
    ensures Holds(crc, file, at', rs, cs, name)
  {
    hide LogReader.HasRecords, IsEdit;
    LogReader.RecordsReach(crc, true, file, at, at', rs);
  }

  lemma OneMoreHeld(crc: LogFormat.Checksum, file: seq<byte>, at: nat, at': nat, rs: seq<seq<byte>>, cs: seq<Contents>,
                    record: seq<byte>, c: Contents, name: seq<byte>)
    requires Holds(crc, file, at, rs, cs, name) && at <= at'
    requires LogReader.HasRecord(crc, true, file, at, at', record)
    requires DecodeItems(record, Contents(None, None, None, None, None, [], [], [])) == Some(c)
    requires c.comparator.Some? ==> c.comparator.value == name
    ensures Holds(crc, file, at', rs + [record], cs + [c], name)
  {
    hide LogReader.HasRecords, LogReader.HasRecord, DecodeItems;
    LogReader.OneMoreRecord(crc, true, file, at, at', rs, record);
  }

  lemma StartOfFile(crc: LogFormat.Checksum, reader: LogReader.Reader, builder: Builder, cs: seq<Contents>,
                    files: Files)
    requires reader.Valid() && reader.crc == crc && reader.pos == 0 && reader.buffer == []
    requires builder.Valid() && builder.base == EmptyVersion
    requires forall l :: 0 <= l < NUM_LEVELS ==> builder.added[l] == [] && builder.deleted[l] == {}
    ensures LogFormat.FileOf(crc, Records(cs)[..0]) == []
    ensures reader.file <= LogFormat.FileOf(crc, Records(cs)) ==> reader.AtRecord(Records(cs), 0)
    ensures Replayed(builder, Counters(None, None, None, None), [], files)
  {
    assert Records(cs)[..0] == [];
  }

  /** Whatever the bytes: what is recovered is what the edits that stand in the file with right checksums say. */
  ghost predicate Recovers(crc: LogFormat.Checksum, file: seq<byte>, name: seq<byte>, files: Files, r: Recovered,
                           cs: seq<Contents>)
    requires |r.version| == NUM_LEVELS
  {
    && (exists rs :: Holds(crc, file, |file|, rs, cs, name))
    && (forall l :: 0 <= l < NUM_LEVELS ==>
          r.version[l] == SaveLevel([], AddedAll(EditsOf(cs, files), l), DeletedAll(EditsOf(cs, files), l)))
    && var last := CountersAfter(cs);
       && last.nextFile.Some? && last.log.Some? && last.lastSequence.Some?
       && r.manifestNumber == last.nextFile.value && r.nextFileNumber == last.nextFile.value + 1
       && r.lastSequence == last.lastSequence.value && r.logNumber == last.log.value
       && r.prevLogNumber == if last.prevLog.Some? then last.prevLog.value else 0
  }

  /** Recover, given the bytes of the manifest CURRENT points to. If they are what a crash left of the edits written,
      recovery uses exactly the n edits that are wholly there: it fails only if no such edit sets a counter that must
      be there, and otherwise its version is the one that installing those edits in turn gives, under the condition of
      RecoveryIsInstallation, and its counters are the last ones written. */
  method Recover(crc: LogFormat.Checksum, file: seq<byte>, name: seq<byte>, files: Files, ghost written: seq<Contents>)
    returns (r: Option<Recovered>)
    ensures Left(crc, file, written, name) ==>
              var last := CountersAfter(written[..LogReader.WholeCount(crc, file, Records(written))]);
              && (r.Some? <==> last.nextFile.Some? && last.log.Some? && last.lastSequence.Some?)
              && (r.Some? ==>
                    && r.value.manifestNumber == last.nextFile.value
                    && r.value.nextFileNumber == last.nextFile.value + 1
                    && r.value.lastSequence == last.lastSequence.value && r.value.logNumber == last.log.value
                    && r.value.prevLogNumber == if last.prevLog.Some? then last.prevLog.value else 0)
    ensures r.Some? ==> |r.value.version| == NUM_LEVELS && exists cs :: Recovers(crc, file, name, files, r.value, cs)
    ensures Left(crc, file, written, name) && r.Some? ==>
              var edits := EditsOf(written[..LogReader.WholeCount(crc, file, Records(written))], files);
              forall l :: 0 <= l < NUM_LEVELS ==>
                && r.value.version[l] == SaveLevel([], AddedAll(edits, l), DeletedAll(edits, l))
                && (NeverReAdded([], edits, l) ==> r.value.version[l] == InstallAll(EmptyVersion, edits)[l])
  {
    hide Left, LogReader.WholeCount, LogReader.WholeRecords, EditOf, EditsOf, NeverReAdded, AddedAll, DeletedAll,
         InstallAll, SaveLevel, CountersAfter;
    var builder := new Builder(EmptyVersion);
    var ok, last;
    ghost var cs;
    ok, last, cs := ReadEdits(crc, file, name, files, builder, written);
    if Left(crc, file, written, name) {
      LogReader.WholeCountIs(crc, file, Records(written), |cs|);
    }
    if !ok || last.nextFile.None? || last.log.None? || last.lastSequence.None? {
      return None;
    }
    var v := builder.SaveTo();
    r := Some(Recovered(v, last.nextFile.value, last.nextFile.value + 1, last.lastSequence.value, last.log.value,
                        if last.prevLog.Some? then last.prevLog.value else 0));
    assert Recovers(crc, file, name, files, r.value, cs);
    if Left(crc, file, written, name) {
      SavedIsInstalled(v, EditsOf(cs, files));
    }
  }

  lemma SavedIsInstalled(v: Version, edits: seq<Edit>)
    requires |v| == NUM_LEVELS
    requires forall l :: 0 <= l < NUM_LEVELS ==> v[l] == SaveLevel([], AddedAll(edits, l), DeletedAll(edits, l))
    ensures forall l :: 0 <= l < NUM_LEVELS && NeverReAdded([], edits, l) ==> v[l] == InstallAll(EmptyVersion, edits)[l]
  {
    hide AddedAll, DeletedAll, InstallAll, SaveLevel, NeverReAdded;
    forall l | 0 <= l < NUM_LEVELS && NeverReAdded([], edits, l)
      ensures v[l] == InstallAll(EmptyVersion, edits)[l]
    {
      RecoveryIsInstallation(EmptyVersion, edits, l);
    }
  }
}
