/** The background thread: when a compaction is scheduled, who waits for it, and who wakes the waiters.
    A step is everything one thread does between taking the mutex and releasing it. */
module Background {
  import opened Basics

  const COMPACTION_TRIGGER := 4
  const STOP_WRITES_TRIGGER := 12

  /** What the background thread does while it does not hold the mutex. A compaction remembers whether it was started
      for a manual request, and for whose. */
  datatype Work = Flushing | Compacting(manual: Option<nat>)

  /** scheduled is background_compaction_scheduled_; queued counts calls handed to the environment and not yet begun.
      imm says whether there is an immutable memtable, files0 counts level-0 files, and otherScore stands for any other
      reason to compact. parked are the threads in Wait. */
  datatype State = State(scheduled: bool, queued: nat, running: Option<Work>, imm: bool, manual: Option<nat>,
                         files0: nat, otherScore: bool, error: bool, shutdown: bool, parked: set<nat>)

  predicate NeedsCompaction(s: State) {
    s.files0 >= COMPACTION_TRIGGER || s.otherScore
  }

  predicate Pending(s: State) {
    s.imm || s.manual.Some? || NeedsCompaction(s)
  }

  // ---- what the steps are made of ----

  function MaybeSchedule(s: State): State {
    if s.scheduled then s
    else if s.shutdown then s
    else if s.error then s
    else if !s.imm && s.manual.None? && !NeedsCompaction(s) then s
    else s.(scheduled := true, queued := s.queued + 1)
  }

  function SignalAll(s: State): State {
    s.(parked := {})
  }

  function RecordError(s: State): State {
    if s.error then s else SignalAll(s.(error := true))
  }

  /** The end of BackgroundCall. */
  function EndCall(s: State): State {
    SignalAll(MaybeSchedule(s.(scheduled := false, running := None)))
  }

  // ---- the steps of the background thread ----

  predicate Begins(s: State) {
    s.queued > 0 && s.running.None?
  }

  function Begun(s: State): State
    requires s.queued > 0
  {
    s.(queued := s.queued - 1)
  }

  predicate StartSkip(s: State, s': State) {
    Begins(s) && (s.shutdown || s.error) && s' == EndCall(Begun(s))
  }

  predicate StartFlush(s: State, s': State) {
    Begins(s) && !s.shutdown && !s.error && s.imm && s' == Begun(s).(running := Some(Flushing))
  }

  predicate StartCompact(s: State, s': State) {
    Begins(s) && !s.shutdown && !s.error && !s.imm && s' == Begun(s).(running := Some(Compacting(s.manual)))
  }

  /** No files to compact: a manual request is done at once. */
  predicate StartNothing(s: State, s': State) {
    Begins(s) && !s.shutdown && !s.error && !s.imm && s' == EndCall(Begun(s).(manual := None))
  }

  /** CompactMemTable: a new version and no immutable memtable, or an error. */
  function Flushed(s: State, ok: bool, files0: nat, otherScore: bool): State {
    if ok then s.(imm := false, files0 := files0, otherScore := otherScore) else RecordError(s)
  }

  predicate FlushEnd(s: State, s': State, ok: bool, files0: nat, otherScore: bool) {
    s.running == Some(Flushing) && s' == EndCall(Flushed(s, ok, files0, otherScore))
  }

  /** DoCompactionWork flushes a memtable that fills up meanwhile. */
  predicate NestedFlush(s: State, s': State, ok: bool, files0: nat, otherScore: bool) {
    && s.running.Some? && s.running.value.Compacting? && s.imm
    && s' == SignalAll(Flushed(s, ok, files0, otherScore))
  }

  /** The manual request this compaction serves is still there to be updated. */
  predicate RequestKept(s: State) {
    s.running.Some? && s.running.value.Compacting? && s.running.value.manual.Some? ==>
      s.manual == s.running.value.manual
  }

  predicate CompactEnd(s: State, s': State, ok: bool, files0: nat, otherScore: bool) {
    && s.running.Some? && s.running.value.Compacting? && RequestKept(s)
    && var t := if ok then s.(files0 := files0, otherScore := otherScore) else RecordError(s);
       s' == EndCall(if s.running.value.manual.Some? then t.(manual := None) else t)
  }

  ghost predicate JobStep(s: State, s': State) {
    || StartSkip(s, s') || StartFlush(s, s') || StartCompact(s, s') || StartNothing(s, s')
    || (exists ok, files0, otherScore :: FlushEnd(s, s', ok, files0, otherScore))
    || (exists ok, files0, otherScore :: NestedFlush(s, s', ok, files0, otherScore))
    || (exists ok, files0, otherScore :: CompactEnd(s, s', ok, files0, otherScore))
  }

  // ---- the steps of everyone else ----

  predicate MustWait(s: State) {
    !s.error && (s.imm || s.files0 >= STOP_WRITES_TRIGGER)
  }

  /** A writer with a full memtable parks. The destructor may only run when no write is in progress. */
  predicate ParkWriter(s: State, s': State, w: nat) {
    MustWait(s) && !s.shutdown && s' == s.(parked := s.parked + {w})
  }

  /** A writer makes the full memtable immutable. */
  predicate SwitchMemtable(s: State, s': State) {
    !s.error && !MustWait(s) && s' == MaybeSchedule(s.(imm := true))
  }

  predicate ManualMayRun(s: State) {
    !s.error && !s.shutdown
  }

  /** TEST_CompactRange puts its request up and parks. */
  predicate ManualBegin(s: State, s': State, w: nat) {
    && ManualMayRun(s) && s.manual.None?
    && s' == MaybeSchedule(s.(manual := Some(w), parked := s.parked + {w}))
  }

  predicate ManualWait(s: State, s': State, w: nat) {
    ManualMayRun(s) && s.manual.Some? && s' == s.(parked := s.parked + {w})
  }

  /** It withdraws its request when it wakes to an error or a shutdown. */
  predicate ManualCancel(s: State, s': State, w: nat) {
    !ManualMayRun(s) && s.manual == Some(w) && w !in s.parked && s' == s.(manual := None)
  }

  /** A read charged a seek to a file, which may ask for its compaction. */
  predicate ReadStats(s: State, s': State) {
    s' == MaybeSchedule(s.(otherScore := true))
  }

  predicate SyncError(s: State, s': State) {
    s' == RecordError(s)
  }

  predicate Shutdown(s: State, s': State) {
    s' == s.(shutdown := true)
  }

  predicate Wake(s: State, s': State, w: nat) {
    s' == s.(parked := s.parked - {w})
  }

  ghost predicate Next(s: State, s': State) {
    || JobStep(s, s')
    || (exists w :: ParkWriter(s, s', w)) || SwitchMemtable(s, s')
    || (exists w :: ManualBegin(s, s', w)) || (exists w :: ManualWait(s, s', w)) || (exists w :: ManualCancel(s, s', w))
    || ReadStats(s, s') || SyncError(s, s') || Shutdown(s, s') || (exists w :: Wake(s, s', w))
  }

  /** Open ends with MaybeScheduleCompaction. */
  predicate Init(s: State) {
    s == MaybeSchedule(State(false, 0, None, false, None, s.files0, s.otherScore, false, false, {}))
  }

  ghost predicate Run(run: seq<State>) {
    |run| > 0 && Init(run[0]) && forall i :: 0 <= i < |run| - 1 ==> Next(run[i], run[i + 1])
  }

  // ---- what every run keeps ----

  function Jobs(s: State): nat {
    s.queued + if s.running.Some? then 1 else 0
  }

  /** There is one background call while the flag is set, and none otherwise. */
  predicate OneJob(s: State) {
    Jobs(s) == if s.scheduled then 1 else 0
  }

  predicate NoLostWork(s: State) {
    Pending(s) && !s.error && !s.shutdown ==> s.scheduled
  }

  /** Whoever waits, waits for a background call that exists. */
  predicate NobodyStranded(s: State) {
    s.parked != {} ==> s.scheduled
  }

  predicate Inv(s: State) {
    && OneJob(s) && NoLostWork(s) && NobodyStranded(s)
    && (s.running == Some(Flushing) ==> s.imm)
    && (ManualMayRun(s) ==> RequestKept(s))
  }

  /** The end of a call leaves no job, or one new job if there is work. */
  lemma EndCallInv(t: State)
    requires t.queued == 0
    ensures Inv(EndCall(t))
  {
  }

  /** Scheduling when there is no job makes one; otherwise it changes nothing. */
  lemma MaybeScheduleInv(t: State)
    requires OneJob(t) && (t.running == Some(Flushing) ==> t.imm) && (ManualMayRun(t) ==> RequestKept(t))
    requires NobodyStranded(t) || (Pending(t) && ManualMayRun(t))
    ensures Inv(MaybeSchedule(t))
  {
  }

  lemma JobKeepsInv(s: State, s': State)
    requires Inv(s) && JobStep(s, s')
    ensures Inv(s')
  {
    if s.running == Some(Flushing) {
      hide EndCall;
      var ok, files0, otherScore :| FlushEnd(s, s', ok, files0, otherScore);
      EndCallInv(Flushed(s, ok, files0, otherScore));
    } else if s.running.Some? {
      if ok, files0, otherScore :| NestedFlush(s, s', ok, files0, otherScore) {
        assert s.scheduled;
      } else {
        hide EndCall, NestedFlush;
        var ok, files0, otherScore :| CompactEnd(s, s', ok, files0, otherScore);
        var t := if ok then s.(files0 := files0, otherScore := otherScore) else RecordError(s);
        EndCallInv(if s.running.value.manual.Some? then t.(manual := None) else t);
      }
    } else {
      EndCallInv(Begun(s));
      EndCallInv(Begun(s).(manual := None));
    }
  }

  lemma SwitchKeepsInv(s: State, s': State)
    requires Inv(s) && SwitchMemtable(s, s')
    ensures Inv(s')
  {
    hide MaybeSchedule;
    MaybeScheduleInv(s.(imm := true));
  }

  lemma ManualBeginKeepsInv(s: State, s': State, w: nat)
    requires Inv(s) && ManualBegin(s, s', w)
    ensures Inv(s')
  {
    hide MaybeSchedule;
    MaybeScheduleInv(s.(manual := Some(w), parked := s.parked + {w}));
  }

  lemma ReadStatsKeepInv(s: State, s': State)
    requires Inv(s) && ReadStats(s, s')
    ensures Inv(s')
  {
    hide MaybeSchedule;
    MaybeScheduleInv(s.(otherScore := true));
  }

  lemma WaitersKeepInv(s: State, s': State, w: nat)
    requires Inv(s) && (ParkWriter(s, s', w) || ManualWait(s, s', w) || ManualCancel(s, s', w) || Wake(s, s', w))
    ensures Inv(s')
  {
  }

  lemma ErrorsKeepInv(s: State, s': State)
    requires Inv(s) && (SyncError(s, s') || Shutdown(s, s'))
    ensures Inv(s')
  {
  }

  lemma OthersKeepInv(s: State, s': State)
    requires Inv(s) && Next(s, s') && !JobStep(s, s')
    ensures Inv(s')
  {
    hide Inv, JobStep, SwitchMemtable, ManualBegin, ReadStats, ParkWriter, ManualWait, ManualCancel, Wake, SyncError,
         Shutdown;
    if SwitchMemtable(s, s') {
      SwitchKeepsInv(s, s');
    } else if w :| ManualBegin(s, s', w) {
      ManualBeginKeepsInv(s, s', w);
    } else if ReadStats(s, s') {
      ReadStatsKeepInv(s, s');
    } else if w :| ParkWriter(s, s', w) || ManualWait(s, s', w) || ManualCancel(s, s', w) || Wake(s, s', w) {
      WaitersKeepInv(s, s', w);
    } else {
      ErrorsKeepInv(s, s');
    }
  }

  lemma NextKeepsInv(s: State, s': State)
    requires Inv(s) && Next(s, s')
    ensures Inv(s')
  {
    hide *;
    if JobStep(s, s') {
      JobKeepsInv(s, s');
    } else {
      OthersKeepInv(s, s');
    }
  }

  lemma {:induction false} RunInv(run: seq<State>, i: nat)
    requires Run(run) && i < |run|
    ensures Inv(run[i])
  {
    if i > 0 {
      RunInv(run, i - 1);
      NextKeepsInv(run[i - 1], run[i - 1 + 1]);
    }
  }

  /** Whenever the mutex is free, work to do and no error or shutdown mean exactly one background call. */
  lemma PendingWorkHasOneJob(run: seq<State>, i: nat)
    requires Run(run) && i < |run| && Pending(run[i]) && !run[i].error && !run[i].shutdown
    ensures Jobs(run[i]) == 1
  {
    RunInv(run, i);
  }

  function JobRank(s: State): nat {
    if s.running.Some? then 1 else if s.queued > 0 then 2 else 0
  }

  /** A parked thread has a background call that can move, unless the manual request it serves was withdrawn. */
  lemma SignalIsComing(run: seq<State>, i: nat)
    requires Run(run) && i < |run| && run[i].parked != {} && RequestKept(run[i])
    ensures exists s' :: JobStep(run[i], s')
  {
    RunInv(run, i);
    var s := run[i];
    if s.running == Some(Flushing) {
      var s' := EndCall(Flushed(s, true, 0, false));
      assert FlushEnd(s, s', true, 0, false);
      assert JobStep(s, s');
    } else if s.running.Some? {
      var t := s.(files0 := 0, otherScore := false);
      var s' := EndCall(if s.running.value.manual.Some? then t.(manual := None) else t);
      assert CompactEnd(s, s', true, 0, false);
      assert JobStep(s, s');
    } else if s.shutdown || s.error {
      assert JobStep(s, EndCall(Begun(s)));
    } else if s.imm {
      assert JobStep(s, Begun(s).(running := Some(Flushing)));
    } else {
      assert JobStep(s, Begun(s).(running := Some(Compacting(s.manual))));
    }
  }

  /** Every step of the background thread wakes all parked threads or is one of at most two steps to the end. */
  lemma JobStepSignals(s: State, s': State)
    requires JobStep(s, s')
    ensures s'.parked == {} || JobRank(s') < JobRank(s)
  {
  }

  /** A writer that must wait for room has a background call to wait for: an immutable memtable and a full level 0
      are both work for it. */
  lemma WaiterHasJob(run: seq<State>, i: nat)
    requires Run(run) && i < |run| && MustWait(run[i]) && !run[i].shutdown
    ensures Jobs(run[i]) == 1
  {
    RunInv(run, i);
  }

  /** A writer with a full memtable waits while there is an immutable one or level 0 has twelve files, and makes the
      memtable immutable otherwise. */
  lemma WriterWaitsOrSwitches(s: State, w: nat)
    requires !s.error && !s.shutdown
    ensures (exists s' :: ParkWriter(s, s', w)) <==> s.imm || s.files0 >= 12
    ensures (exists s' :: SwitchMemtable(s, s')) <==> !s.imm && s.files0 < 12
  {
    if s.imm || s.files0 >= 12 {
      assert ParkWriter(s, s.(parked := s.parked + {w}), w);
    } else {
      assert SwitchMemtable(s, MaybeSchedule(s.(imm := true)));
    }
  }

  // ---- no more calls than there is work ----

  /** No call is running, and one is on its way exactly if there is work, no error and no shutdown. */
  predicate Rescheduled(s: State) {
    && s.running.None? && s.queued == (if s.scheduled then 1 else 0)
    && (s.scheduled <==>
          (s.imm || s.manual.Some? || s.files0 >= 4 || s.otherScore) && !s.error && !s.shutdown)
  }

  lemma EndReschedules(t: State)
    requires t.queued == 0
    ensures Rescheduled(EndCall(t)) && EndCall(t).parked == {}
  {
  }

  /** A step of the background thread begins its work, goes on with it, or ends the call; after the end another call is
      on its way exactly if there is reason for one. */
  lemma JobReschedules(s: State, s': State)
    requires Inv(s) && JobStep(s, s') && s'.running.None?
    ensures Rescheduled(s') && s'.parked == {}
  {
    if s.running == Some(Flushing) {
      hide EndCall;
      var ok, files0, otherScore :| FlushEnd(s, s', ok, files0, otherScore);
      EndReschedules(Flushed(s, ok, files0, otherScore));
    } else if s.running.Some? {
      hide EndCall, NestedFlush, RecordError;
      NestedGoesOn(s, s');
      var ok, files0, otherScore :| CompactEnd(s, s', ok, files0, otherScore);
      CompactReschedules(s, s', ok, files0, otherScore);
    } else {
      EndReschedules(Begun(s));
      EndReschedules(Begun(s).(manual := None));
    }
  }

  lemma CompactReschedules(s: State, s': State, ok: bool, files0: nat, otherScore: bool)
    requires Inv(s) && CompactEnd(s, s', ok, files0, otherScore)
    ensures Rescheduled(s') && s'.parked == {}
  {
    hide EndCall;
    var t := if ok then s.(files0 := files0, otherScore := otherScore) else RecordError(s);
    EndReschedules(if s.running.value.manual.Some? then t.(manual := None) else t);
  }

  lemma NestedGoesOn(s: State, s': State)
    requires s'.running.None?
    ensures forall ok, files0, otherScore :: !NestedFlush(s, s', ok, files0, otherScore)
  {
  }

  /** Everyone else hands out a call only for work, and never after an error or a shutdown. */
  lemma OthersScheduleForWork(s: State, s': State)
    requires Inv(s) && Next(s, s') && !JobStep(s, s') && (s'.scheduled != s.scheduled || Jobs(s') != Jobs(s))
    ensures Rescheduled(s') && !s.scheduled
  {
    hide JobStep;
  }

  /** The flush inside a running compaction, the one step of a call that may come any number of times. */
  ghost predicate FlushesInside(s: State, s': State) {
    exists ok, files0, otherScore :: NestedFlush(s, s', ok, files0, otherScore)
  }

  /** What a call does: the memtable before any compaction, nothing at all after an error or a shutdown; and what it has
      done for those who wait for it when it ends: no immutable memtable is left unless there is an error, and the
      manual request it was for is done with. */
  lemma JobDoesItsWork(s: State, s': State)
    requires Inv(s) && JobStep(s, s')
    ensures s.running.None? && s'.running.Some? ==>
              !s.error && !s.shutdown && s'.running == Some(if s.imm then Flushing else Compacting(s.manual))
    ensures s.running == Some(Flushing) ==> s'.running.None? && (s'.error || !s'.imm)
    ensures s.running.Some? && s.running.value.Compacting? && s'.running.None? ==>
              s'.manual == if s.running.value.manual.Some? then None else s.manual
    ensures s.running.Some? && s'.running.Some? ==> s'.running == s.running && (s'.error || !s'.imm)
    ensures s.running.None? && s'.running.None? ==> s'.manual == if s.error || s.shutdown then s.manual else None
  {
    if s.running.Some? && s.running.value.Compacting? {
      if s'.running.None? {
        NestedGoesOn(s, s');
      } else {
        CompactingGoesOn(s, s');
      }
    }
  }

  lemma CompactingGoesOn(s: State, s': State)
    requires s.running.Some? && s.running.value.Compacting? && JobStep(s, s') && s'.running.Some?
    ensures FlushesInside(s, s') && s'.running == s.running && (s'.error || !s'.imm)
  {
  }

  /** A manual request stays until the compaction that serves it is over or, after an error or a shutdown, its owner is
      awake and withdraws it. */
  lemma RequestStays(s: State, s': State, w: nat)
    requires Inv(s) && Next(s, s') && s.manual == Some(w) && s'.manual != Some(w)
    ensures s'.manual == None
    ensures || (JobStep(s, s') && s'.running.None? && s.running in {None, Some(Compacting(Some(w)))})
            || ((s.error || s.shutdown) && w !in s.parked)
  {
    if JobStep(s, s') {
      JobServesRequest(s, s', w);
    } else {
      hide JobStep;
    }
  }

  lemma JobServesRequest(s: State, s': State, w: nat)
    requires Inv(s) && JobStep(s, s') && s.manual == Some(w) && s'.manual != Some(w)
    ensures s'.manual == None && s'.running.None?
    ensures s.running in {None, Some(Compacting(Some(w)))}
  {
    if s.running == Some(Flushing) {
      hide EndCall;
      var ok, files0, otherScore :| FlushEnd(s, s', ok, files0, otherScore);
      EndKeepsRequest(Flushed(s, ok, files0, otherScore));
    } else if s.running.Some? && s'.running.Some? {
      CompactingGoesOn(s, s');
    } else if s.running.Some? {
      hide EndCall, NestedFlush, RecordError;
      NestedGoesOn(s, s');
      var ok, files0, otherScore :| CompactEnd(s, s', ok, files0, otherScore);
      CompactServesRequest(s, s', ok, files0, otherScore);
    } else {
      EndKeepsRequest(Begun(s));
      EndKeepsRequest(Begun(s).(manual := None));
    }
  }

  lemma EndKeepsRequest(t: State)
    ensures EndCall(t).manual == t.manual && EndCall(t).running.None?
  {
  }

  lemma CompactServesRequest(s: State, s': State, ok: bool, files0: nat, otherScore: bool)
    requires CompactEnd(s, s', ok, files0, otherScore)
    ensures s'.manual == (if s.running.value.manual.Some? then None else s.manual) && s'.running.None?
  {
    hide EndCall;
    var t := if ok then s.(files0 := files0, otherScore := otherScore) else RecordError(s);
    EndKeepsRequest(if s.running.value.manual.Some? then t.(manual := None) else t);
  }

  // ---- coming to rest ----

  predicate Stopped(s: State) {
    s.error || s.shutdown
  }

  /** After an error or a shutdown the background thread begins nothing, and each of its steps but the flush inside a
      compaction brings it nearer to rest. */
  lemma StoppedStep(s: State, s': State)
    requires Inv(s) && Next(s, s') && Stopped(s)
    ensures Stopped(s') && (s'.running.Some? ==> s'.running == s.running) && JobRank(s') <= JobRank(s)
    ensures JobStep(s, s') && !FlushesInside(s, s') ==> JobRank(s') < JobRank(s)
  {
    if JobStep(s, s') {
      if s'.running.None? {
        JobReschedules(s, s');
      }
    } else {
      hide JobStep;
    }
  }

  /** How many steps of the background thread there are from state i to state j, flushes inside a compaction apart. */
  ghost function JobSteps(run: seq<State>, i: nat, j: nat): nat
    requires i <= j < |run|
  {
    if i == j then 0
    else
      JobSteps(run, i, j - 1)
      + if JobStep(run[j - 1], run[j]) && !FlushesInside(run[j - 1], run[j]) then 1 else 0
  }

  /** The destructor's wait ends: after an error or a shutdown the background thread has at most two steps left, and
      when it has made them the flag is down and stays down. */
  lemma {:induction false} ComesToRest(run: seq<State>, i: nat, j: nat)
    requires Run(run) && i <= j < |run| && Stopped(run[i])
    ensures Stopped(run[j]) && JobRank(run[j]) + JobSteps(run, i, j) <= JobRank(run[i]) <= 2
    ensures JobRank(run[j]) == 0 ==> !run[j].scheduled
  {
    hide JobStep, Next, FlushesInside;
    RunInv(run, j);
    if i < j {
      ComesToRest(run, i, j - 1);
      RunInv(run, j - 1);
      assert Next(run[j - 1], run[j - 1 + 1]);
      StoppedStep(run[j - 1], run[j]);
    }
  }

  /** An error wakes everyone who waits. */
  lemma ErrorWakesAll(s: State, s': State)
    requires Inv(s) && Next(s, s') && !s.error && s'.error
    ensures s'.parked == {}
  {
    if JobStep(s, s') && s'.running.None? {
      JobReschedules(s, s');
    }
  }

  // ---- the withdrawn request ----

  /** A compaction started for a manual request finds it again unless its owner withdrew it, and the owner may do that
      only after an error or a shutdown. */
  lemma RequestKeptWithoutErrors(run: seq<State>, i: nat)
    requires Run(run) && i < |run| && ManualMayRun(run[i])
    ensures RequestKept(run[i])
  {
    RunInv(run, i);
  }

  /** After a failed log sync the owner may wake, withdraw the request and return while the compaction still runs:
      BackgroundCompaction then looks for a request that is no longer there. */
  lemma WithdrawnRequest() returns (run: seq<State>)
    ensures Run(run) && !RequestKept(run[|run| - 1])
  {
    var s0 := State(false, 0, None, false, None, 0, false, false, false, {});
    var s1 := MaybeSchedule(s0.(manual := Some(7), parked := {7}));
    var s2 := Begun(s1).(running := Some(Compacting(Some(7))));
    var s3 := RecordError(s2);
    var s4 := s3.(manual := None);
    assert ManualBegin(s0, s1, 7) by {
      assert s0.parked + {7} == {7};
    }
    assert StartCompact(s1, s2) && SyncError(s2, s3) && ManualCancel(s3, s4, 7);
    run := [s0, s1, s2, s3, s4];
  }

  predicate Withdraws(s: State, s': State, w: nat) {
    ManualCancel(s, s', w) && s.running == Some(Compacting(Some(w)))
  }

  /** Exactly the withdrawal loses the request: any other step keeps it. */
  lemma OnlyCancelLosesRequest(s: State, s': State)
    requires Next(s, s') && RequestKept(s)
    ensures RequestKept(s') <==> !exists w :: Withdraws(s, s', w)
  {
    if JobStep(s, s') {
      JobKeepsRequest(s, s');
    } else {
      hide JobStep;
      if w :| Withdraws(s, s', w) {
      } else if w :| ManualCancel(s, s', w) {
        assert !Withdraws(s, s', w);
      }
    }
  }

  lemma JobKeepsRequest(s: State, s': State)
    requires JobStep(s, s') && RequestKept(s)
    ensures RequestKept(s') && forall w :: !Withdraws(s, s', w)
  {
  }
}
