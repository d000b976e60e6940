/** Replaying the write-ahead log after a crash, from the writers' queue to the recovered memtable. */
module Recoveries {
  import opened Basics
  import opened InternalKeys
  import opened WriteBatches
  import LogFormat
  import LogReader
  import Stores
  import Wire
  import WriteQueue

  function Records(batches: seq<Batch>): (r: seq<seq<byte>>)
    ensures |r| == |batches|
  {
    seq(|batches|, i requires 0 <= i < |batches| => ContentsOf(batches[i]))
  }

  function StampAll(batches: seq<Batch>): seq<Stamped> {
    if batches == [] then []
    else
      var last := batches[|batches| - 1];
      StampAll(batches[..|batches| - 1]) + Stamp(last.ops, last.first)
  }

  function Max(a: nat, b: nat): nat {
    if a < b then b else a
  }

  /** The highest sequence number used, or the one known before. */
  function HighestSequence(batches: seq<Batch>, before: nat): nat
    requires forall i :: 0 <= i < |batches| ==> batches[i].first > 0
  {
    if batches == [] then before
    else
      var last := batches[|batches| - 1];
      Max(HighestSequence(batches[..|batches| - 1], before), last.first + |last.ops| - 1)
  }

  predicate Fits(b: Batch) {
    BatchFits(b) && b.first > 0
  }

  predicate AllFit(batches: seq<Batch>) {
    forall i :: 0 <= i < |batches| ==> Fits(batches[i])
  }

  /** A crash left the first bytes of the log of these batches. */
  ghost predicate Left(crc: LogFormat.Checksum, file: seq<byte>, batches: seq<Batch>) {
    AllFit(batches) && file <= LogFormat.FileOf(crc, Records(batches))
  }

  /** What the records, taken for batches, put into the memtable; one shorter than a header puts in nothing. */
  function Inserted(rs: seq<seq<byte>>): seq<Stamped> {
    if rs == [] then []
    else
      var r := rs[|rs| - 1];
      Inserted(rs[..|rs| - 1]) + if |r| < 12 then [] else Stamp(ParseOps(r[12..]).0, SequenceOf(r))
  }

  /** A record that is a batch of as many operations as its header says. */
  predicate IsBatch(r: seq<byte>) {
    |r| >= 12 && ParseOps(r[12..]).1 && |ParseOps(r[12..]).0| == CountOf(r)
  }

  /** The records stand in the file before this place, and the memtable is what they put in. */
  ghost predicate ComesFrom(crc: LogFormat.Checksum, file: seq<byte>, at: nat, rs: seq<seq<byte>>, mem: seq<Stamped>) {
    LogReader.HasRecords(crc, true, file, at, rs) && mem == Inserted(rs)
  }

  lemma OneMoreInserted(rs: seq<seq<byte>>, r: seq<byte>)
    ensures Inserted(rs + [r]) == Inserted(rs) + if |r| < 12 then [] else Stamp(ParseOps(r[12..]).0, SequenceOf(r))
  {
    hide Stamp, ParseOps, SequenceOf;
    assert (rs + [r])[..|rs|] == rs;
  }

  /** RecoverLogFile: every record is a batch that goes into the memtable. With paranoid checks the first error ends
      the recovery, without them errors are ignored. What a crash left of a log has no errors, and exactly the
      batches that are wholly there are inserted. */
  method RecoverLogFile(crc: LogFormat.Checksum, file: seq<byte>, paranoid: bool, maxSequence: nat,
                        ghost written: seq<Batch>)
    returns (ok: bool, mem: seq<Stamped>, last: nat)
    ensures Left(crc, file, written) ==>
              var whole := written[..LogReader.WholeCount(crc, file, Records(written))];
              ok && mem == StampAll(whole) && last == HighestSequence(whole, maxSequence)
    ensures !paranoid ==> ok
    ensures exists rs :: ComesFrom(crc, file, |file|, rs, mem) && (paranoid && ok ==> forall r :: r in rs ==>
              IsBatch(r))
  {
    hide LogReader.HasRecords, LogReader.HasRecord, Inserted;
    hide LogFormat.FileOf, LogReader.Reader.Valid, LogReader.Reader.AtRecord, LogReader.Reader.AtEndOfLog, ContentsOf,
         BatchFits, ParseOps, Stamp, SequenceOf, CountOf, StampAll, HighestSequence, EncodeOps, IsBatch;
    ghost var left, records := Left(crc, file, written), Records(written);
    var reader := new LogReader.Reader(crc, true, file);
    var batch := new WriteBatch();
    ok, mem, last := true, [], maxSequence;
    ghost var n := 0;
    ghost var rs: seq<seq<byte>> := [];
    NothingInserted(crc, file);
    StartOfFile(crc, reader, written);
    while ok
      invariant fresh(reader) && reader.Valid() && reader.crc == crc && reader.file == file && fresh(batch)
      invariant reader.checksum
      invariant left ==> ok && reader.reports == 0 && n <= |written| && reader.AtRecord(records, n)
      invariant left ==> |LogFormat.FileOf(crc, records[..n])| <= |file|
      invariant ComesFrom(crc, file, reader.pos - |reader.buffer|, rs, mem) && (!paranoid ==> ok)
      invariant paranoid && ok ==> forall r :: r in rs ==> IsBatch(r)
      invariant left ==> mem == StampAll(written[..n]) && last == HighestSequence(written[..n], maxSequence)
      decreases |file| - (reader.pos - |reader.buffer|)
    {
      LogReader.NotPastEnd(reader);
      ghost var before := reader.pos - |reader.buffer|;
      var got, record := reader.ReadRecord(records, n);
      LogReader.RecordsReach(crc, true, file, before, reader.pos - |reader.buffer|, rs);
      if paranoid && reader.reports > 0 {
        ok := false;
      }
      if !got || !ok {
        break;
      }
      LogReader.OneMoreRecord(crc, true, file, before, reader.pos - |reader.buffer|, rs, record);
      OneMoreInserted(rs, record);
      rs := rs + [record];
      ok, mem, last := InsertRecord(batch, record, paranoid, mem, last, if left then Some(written[n]) else None);
      if left {
        NextBatch(written, n, maxSequence);
        n := n + 1;
      }
    }
    LogReader.NotPastEnd(reader);
    LogReader.RecordsReach(crc, true, file, reader.pos - |reader.buffer|, |file|, rs);
    assert ComesFrom(crc, file, |file|, rs, mem);
    if left {
      LogReader.WholeCountIs(crc, file, records, n);
    }
  }

  /** One record. A short one is reported and, like a batch that is not whole, ends the recovery if it is paranoid. */
  method InsertRecord(batch: WriteBatch, record: seq<byte>, paranoid: bool, mem: seq<Stamped>, last: nat,
                      ghost written: Option<Batch>)
    returns (ok: bool, mem': seq<Stamped>, last': nat)
    modifies batch
    ensures ok <==> !paranoid || IsBatch(record)
    ensures mem' == mem + if |record| < 12 then [] else Stamp(ParseOps(record[12..]).0, SequenceOf(record))
    ensures written.Some? && Fits(written.value) && record == ContentsOf(written.value) ==>
              ok && mem' == mem + Stamp(written.value.ops, written.value.first)
              && last' == Max(last, written.value.first + |written.value.ops| - 1)
  {
    hide ContentsOf, BatchFits, ParseOps, Stamp, SequenceOf, CountOf, EncodeOps;
    if |record| < HEADER {
      return !paranoid, mem, last;
    }
    last' := last;
    batch.SetContents(record);
    ok, mem' := batch.InsertInto(mem);
    if !paranoid {
      ok := true;
    }
    if !ok {
      return;
    }
    var lastSequence := (SequenceOf(record) + CountOf(record) - 1) % TWO64;
    if lastSequence > last {
      last' := lastSequence;
    }
    if written.Some? && Fits(written.value) && record == ContentsOf(written.value) {
      assert batch.Is(written.value);
      LastOfHeader(written.value);
    }
  }

  lemma NothingInserted(crc: LogFormat.Checksum, file: seq<byte>)
    ensures ComesFrom(crc, file, 0, [], [])
  {
  }

  lemma StartOfFile(crc: LogFormat.Checksum, reader: LogReader.Reader, batches: seq<Batch>)
    requires reader.Valid() && reader.crc == crc && reader.pos == 0 && reader.buffer == []
    ensures LogFormat.FileOf(crc, Records(batches)[..0]) == [] && StampAll(batches[..0]) == []
    ensures forall before :: HighestSequence(batches[..0], before) == before
    ensures reader.file <= LogFormat.FileOf(crc, Records(batches)) ==> reader.AtRecord(Records(batches), 0)
  {
    assert Records(batches)[..0] == [];
  }

  lemma NextBatch(batches: seq<Batch>, n: nat, before: nat)
    requires n < |batches| && AllFit(batches)
    ensures StampAll(batches[..n + 1]) == StampAll(batches[..n]) + Stamp(batches[n].ops, batches[n].first)
    ensures HighestSequence(batches[..n + 1], before)
            == Max(HighestSequence(batches[..n], before), batches[n].first + |batches[n].ops| - 1)
    ensures BatchFits(batches[n])
    ensures var rep := ContentsOf(batches[n]);
            (SequenceOf(rep) + CountOf(rep) - 1) % TWO64 == batches[n].first + |batches[n].ops| - 1
  {
    hide BatchFits, ContentsOf, SequenceOf, CountOf, Stamp;
    assert batches[..n + 1][..n] == batches[..n];
    LastOfHeader(batches[n]);
  }

  lemma LastOfHeader(b: Batch)
    requires BatchFits(b) && b.first > 0
    ensures var rep := ContentsOf(b); (SequenceOf(rep) + CountOf(rep) - 1) % TWO64 == b.first + |b.ops| - 1
  {
    hide ContentsOf, SequenceOf, CountOf, OpFits;
    HeaderBack(b);
    Wire.SmallMod(b.first + |b.ops| - 1, TWO64);
  }

  /** No recovered entry lies above the sequence number recovery ends with, so later writes get fresh numbers. */
  lemma {:induction false} StampsBelow(batches: seq<Batch>, before: nat)
    requires AllFit(batches)
    ensures before <= HighestSequence(batches, before)
    ensures forall x :: x in StampAll(batches) ==> x.sequence <= HighestSequence(batches, before)
  {
    hide OpFits;
    if batches != [] {
      StampsBelow(batches[..|batches| - 1], before);
      var last := batches[|batches| - 1];
      assert BatchFits(last) && last.first > 0;
      forall x | x in Stamp(last.ops, last.first)
        ensures x.sequence <= last.first + |last.ops| - 1
      {
        var i :| 0 <= i < |last.ops| && x == Stamp(last.ops, last.first)[i];
        assert 0 <= last.first + i < TWO64;
      }
    }
  }

  /** That number is the one known before or the last one a batch used. */
  lemma {:induction false} HighestIsUsed(batches: seq<Batch>, before: nat)
    requires forall i :: 0 <= i < |batches| ==> batches[i].first > 0
    ensures var h := HighestSequence(batches, before);
            h == before || exists i :: 0 <= i < |batches| && h == batches[i].first + |batches[i].ops| - 1
  {
    if batches != [] {
      HighestIsUsed(batches[..|batches| - 1], before);
    }
  }

  // ---- from the writers' queue to the recovered memtable ----

  /** How clients spell their keys and values in bytes. */
  datatype Spelling = Spelling(key: UserKey -> seq<byte>, value: Bytes -> seq<byte>)

  function OpBytes(sp: Spelling, op: Stores.Op): Op {
    if op.Put? then Put(sp.key(op.user), sp.value(op.val)) else Delete(sp.key(op.user))
  }

  /** An entry as an operation with the sequence number it is inserted under. */
  function EntryBytes(sp: Spelling, e: Entry): Stamped {
    Stamped(e.key.sequence,
            if e.key.kind.Value? then Put(sp.key(e.key.user), sp.value(e.val)) else Delete(sp.key(e.key.user)))
  }

  function Spelled(sp: Spelling, es: seq<Entry>): (r: seq<Stamped>)
    ensures |r| == |es|
  {
    seq(|es|, i requires 0 <= i < |es| => EntryBytes(sp, es[i]))
  }

  function BatchOf(sp: Spelling, r: WriteQueue.Record): Batch {
    Batch(r.first, seq(|r.ops|, i requires 0 <= i < |r.ops| => OpBytes(sp, r.ops[i])))
  }

  function BatchesOf(sp: Spelling, log: seq<WriteQueue.Record>): (r: seq<Batch>)
    ensures |r| == |log|
  {
    seq(|log|, i requires 0 <= i < |log| => BatchOf(sp, log[i]))
  }

  lemma StampSpelled(sp: Spelling, r: WriteQueue.Record)
    requires BatchFits(BatchOf(sp, r))
    ensures Stamp(BatchOf(sp, r).ops, r.first) == Spelled(sp, WriteQueue.Numbered(r.ops, r.first))
  {
    hide OpFits;
    var b := BatchOf(sp, r);
    forall i | 0 <= i < |r.ops|
      ensures Stamp(b.ops, r.first)[i] == Spelled(sp, WriteQueue.Numbered(r.ops, r.first))[i]
    {
      assert 0 <= r.first + i < TWO64;
      assert b.ops[i] == OpBytes(sp, r.ops[i]);
    }
  }

  /** What is inserted for the first n records are the entries the queue's log stands for. */
  lemma {:induction false} StampedIsLog(sp: Spelling, log: seq<WriteQueue.Record>, n: nat)
    requires n <= |log| && AllFit(BatchesOf(sp, log))
    ensures StampAll(BatchesOf(sp, log)[..n]) == Spelled(sp, WriteQueue.LogEntries(log[..n]))
  {
    hide BatchFits;
    var batches := BatchesOf(sp, log);
    if n > 0 {
      StampedIsLog(sp, log, n - 1);
      assert batches[..n][..n - 1] == batches[..n - 1] && log[..n][..n - 1] == log[..n - 1];
      assert BatchFits(batches[n - 1]);
      StampSpelled(sp, log[n - 1]);
      var front, last := WriteQueue.LogEntries(log[..n - 1]), WriteQueue.Numbered(log[n - 1].ops, log[n - 1].first);
      assert Spelled(sp, front + last) == Spelled(sp, front) + Spelled(sp, last);
    }
  }

  /** Where the entries of record j stand among those of the first n. */
  lemma {:induction false} RecordInLog(log: seq<WriteQueue.Record>, j: nat, n: nat) returns (k: nat)
    requires j < n <= |log|
    ensures var es, own := WriteQueue.LogEntries(log[..n]), WriteQueue.Numbered(log[j].ops, log[j].first);
            k + |own| <= |es| && es[k..k + |own|] == own
    decreases n
  {
    hide WriteQueue.Numbered;
    assert log[..n][..n - 1] == log[..n - 1];
    if j == n - 1 {
      k := |WriteQueue.LogEntries(log[..n - 1])|;
    } else {
      k := RecordInLog(log, j, n - 1);
    }
  }

  /** A record that is wholly in what is left is among the records recovered. */
  lemma {:induction false} WholeIsRecovered(crc: LogFormat.Checksum, file: seq<byte>, records: seq<seq<byte>>, k: nat,
                                            j: nat)
    requires k <= j && LogReader.RecordWhole(crc, file, records, j)
    ensures j < LogReader.WholeFrom(crc, file, records, k)
    decreases j - k
  {
    hide LogFormat.FileOf;
    LogReader.WholeBefore(crc, file, records, k, j);
    if k < j {
      WholeIsRecovered(crc, file, records, k + 1, j);
    }
  }

  lemma SyncedIsWhole(crc: LogFormat.Checksum, file: seq<byte>, sp: Spelling, log: seq<WriteQueue.Record>, j: nat)
    requires KeptSynced(crc, file, sp, log) && j < |log| && log[j].synced
    ensures LogReader.RecordWhole(crc, file, Records(BatchesOf(sp, log)), j)
  {
  }

  /** A member's operations within the record of its group, entry by entry. */
  lemma HeldEntries(r: WriteQueue.Record, ops: seq<Stores.Op>, first: nat) returns (k: nat)
    requires WriteQueue.Holds(r, ops, first)
    ensures k + |ops| <= |r.ops|
    ensures WriteQueue.Numbered(r.ops, r.first)[k..k + |ops|] == WriteQueue.Numbered(ops, first)
  {
    k := first - r.first;
    forall i | 0 <= i < |ops|
      ensures WriteQueue.Numbered(r.ops, r.first)[k..k + |ops|][i] == WriteQueue.Numbered(ops, first)[i]
    {
      assert ops[i] == r.ops[first - r.first..first - r.first + |ops|][i] == r.ops[k + i];
      assert r.first + (k + i) == first + i;
      assert WriteQueue.Numbered(r.ops, r.first)[k..k + |ops|][i] == WriteQueue.Numbered(r.ops, r.first)[k + i];
    }
  }

  predicate Within(mem: seq<Stamped>, k: nat, part: seq<Stamped>) {
    k + |part| <= |mem| && mem[k..k + |part|] == part
  }

  ghost predicate Contains(mem: seq<Stamped>, part: seq<Stamped>) {
    exists k: nat :: Within(mem, k, part)
  }

  /** A write that returned success after a sync. */
  ghost predicate AcknowledgedSync(s: WriteQueue.State, id: nat)
    requires WriteQueue.Settled(s)
  {
    id < WriteQueue.Gone(s) && s.returned[id].Applied? && s.arrived[id].sync && s.arrived[id].batch.Some?
  }

  /** The entries of a returned write, under the sequence numbers it was given. */
  function OwnEntries(s: WriteQueue.State, id: nat): seq<Entry>
    requires WriteQueue.Settled(s) && id < WriteQueue.Gone(s)
  {
    WriteQueue.Numbered(WriteQueue.Ops(s.arrived[id]), WriteQueue.Before(s, id) + 1)
  }

  /** What was synced is still there. */
  ghost predicate KeptSynced(crc: LogFormat.Checksum, file: seq<byte>, sp: Spelling, log: seq<WriteQueue.Record>) {
    forall j: nat :: j < |log| && log[j].synced ==> LogReader.RecordWhole(crc, file, Records(BatchesOf(sp, log)), j)
  }

  /** The machine stops in any state of the queue, and the file keeps at least what was synced. The recovered memtable
      then holds the entries of a prefix of the log, so of the committed history, and every write that was
      acknowledged with sync is in it whole, under the sequence numbers it was acknowledged with. */
  method Restart(crc: LogFormat.Checksum, file: seq<byte>, paranoid: bool, ghost sp: Spelling,
                 ghost s: WriteQueue.State)
    returns (ok: bool, mem: seq<Stamped>, last: nat)
    requires WriteQueue.Inv(s) && Left(crc, file, BatchesOf(sp, s.log)) && KeptSynced(crc, file, sp, s.log)
    ensures ok && forall x :: x in mem ==> x.sequence <= last
    ensures mem == Spelled(sp,
              WriteQueue.LogEntries(s.log[..LogReader.WholeCount(crc, file, Records(BatchesOf(sp, s.log)))]))
    ensures forall id: nat :: AcknowledgedSync(s, id) ==> Contains(mem, Spelled(sp, OwnEntries(s, id)))
  {
    hide KeptSynced, StampAll, HighestSequence, OwnEntries, Contains, LogReader.WholeCount;
    ok, mem, last := RecoverLogFile(crc, file, paranoid, 0, BatchesOf(sp, s.log));
    ghost var n := LogReader.WholeCount(crc, file, Records(BatchesOf(sp, s.log)));
    LeftFits(crc, file, BatchesOf(sp, s.log));
    StampsBelow(BatchesOf(sp, s.log)[..n], 0);
    StampedIsLog(sp, s.log, n);
    forall id: nat | AcknowledgedSync(s, id)
      ensures Contains(mem, Spelled(sp, OwnEntries(s, id)))
    {
      SyncedWriteSurvives(crc, file, sp, s, id);
    }
  }

  lemma LeftFits(crc: LogFormat.Checksum, file: seq<byte>, batches: seq<Batch>)
    requires Left(crc, file, batches)
    ensures AllFit(batches)
  {
  }

  lemma SyncedWriteSurvives(crc: LogFormat.Checksum, file: seq<byte>, sp: Spelling, s: WriteQueue.State, id: nat)
    requires WriteQueue.Inv(s) && AcknowledgedSync(s, id) && KeptSynced(crc, file, sp, s.log)
    ensures var n := LogReader.WholeCount(crc, file, Records(BatchesOf(sp, s.log)));
            Contains(Spelled(sp, WriteQueue.LogEntries(s.log[..n])), Spelled(sp, OwnEntries(s, id)))
  {
    hide WriteQueue.LogEntries, WriteQueue.Progress, WriteQueue.Durable, WriteQueue.ReturnedUpTo,
         WriteQueue.Numbered, WriteQueue.Holds, WriteQueue.Before;
    hide LogReader.WholeFrom, LogReader.RecordWhole, OwnEntries, KeptSynced, Spelled, Contains, Records, BatchesOf;
    var n := LogReader.WholeCount(crc, file, Records(BatchesOf(sp, s.log)));
    var j := SyncedRecord(s, id);
    SyncedIsWhole(crc, file, sp, s.log, j);
    WholeIsRecovered(crc, file, Records(BatchesOf(sp, s.log)), 0, j);
    var at := RecordInLog(s.log, j, n);
    var k := OwnInRecord(s, id, s.log[j]);
    PartOfPart(WriteQueue.LogEntries(s.log[..n]), at, WriteQueue.Numbered(s.log[j].ops, s.log[j].first), k,
      OwnEntries(s, id));
    SpelledPart(sp, WriteQueue.LogEntries(s.log[..n]), at + k, OwnEntries(s, id));
  }

  lemma PartOfPart<T>(all: seq<T>, at: nat, part: seq<T>, k: nat, inner: seq<T>)
    requires at + |part| <= |all| && all[at..at + |part|] == part
    requires k + |inner| <= |part| && part[k..k + |inner|] == inner
    ensures at + k + |inner| <= |all| && all[at + k..at + k + |inner|] == inner
  {
    forall i | 0 <= i < |inner|
      ensures all[at + k..at + k + |inner|][i] == inner[i]
    {
      assert inner[i] == part[k..k + |inner|][i] == part[k + i] == all[at..at + |part|][k + i];
    }
  }

  lemma SyncedRecord(s: WriteQueue.State, id: nat) returns (j: nat)
    requires WriteQueue.Inv(s) && AcknowledgedSync(s, id)
    ensures j < |s.log| && s.log[j].synced && id < WriteQueue.Gone(s)
    ensures WriteQueue.Holds(s.log[j], WriteQueue.Ops(s.arrived[id]), WriteQueue.Before(s, id) + 1)
  {
    hide WriteQueue.Holds, WriteQueue.Before, WriteQueue.Progress;
    var r :| r in s.log && r.synced && WriteQueue.Holds(r, WriteQueue.Ops(s.arrived[id]), WriteQueue.Before(s, id) + 1);
    j :| 0 <= j < |s.log| && s.log[j] == r;
  }

  lemma OwnInRecord(s: WriteQueue.State, id: nat, r: WriteQueue.Record) returns (k: nat)
    requires WriteQueue.Settled(s) && id < WriteQueue.Gone(s)
    requires WriteQueue.Holds(r, WriteQueue.Ops(s.arrived[id]), WriteQueue.Before(s, id) + 1)
    ensures var own, part := WriteQueue.Numbered(r.ops, r.first), OwnEntries(s, id);
            k + |part| <= |own| && own[k..k + |part|] == part
  {
    hide WriteQueue.Before;
    k := HeldEntries(r, WriteQueue.Ops(s.arrived[id]), WriteQueue.Before(s, id) + 1);
  }

  lemma SpelledPart(sp: Spelling, es: seq<Entry>, k: nat, part: seq<Entry>)
    requires k + |part| <= |es| && es[k..k + |part|] == part
    ensures Contains(Spelled(sp, es), Spelled(sp, part))
  {
    forall i | 0 <= i < |part|
      ensures Spelled(sp, es)[k..k + |part|][i] == Spelled(sp, part)[i]
    {
      assert part[i] == es[k..k + |part|][i] == es[k + i];
    }
    assert Within(Spelled(sp, es), k, Spelled(sp, part));
  }
}
