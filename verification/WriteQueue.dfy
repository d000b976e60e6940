/** DBImpl::Write: writers queue up, and the one at the front commits a group of batches for all of them. */
module WriteQueue {
  import opened Basics
  import opened InternalKeys
  import Stores

  /** A batch of operations and the length of its encoding. */
  datatype Batch = Batch(ops: seq<Stores.Op>, size: nat)

  /** A caller of Write; a null batch only waits for earlier writes. */
  datatype Request = Request(batch: Option<Batch>, sync: bool)

  function Ops(w: Request): seq<Stores.Op> {
    if w.batch.Some? then w.batch.value.ops else []
  }

  function Size(w: Request): nat {
    if w.batch.Some? then w.batch.value.size else 0
  }

  function OpsOf(ws: seq<Request>): seq<Stores.Op> {
    if ws == [] then [] else OpsOf(ws[..|ws| - 1]) + Ops(ws[|ws| - 1])
  }

  function SizeOf(ws: seq<Request>): nat {
    if ws == [] then 0 else SizeOf(ws[..|ws| - 1]) + Size(ws[|ws| - 1])
  }

  // ---- the group a front writer commits ----

  const MAX_GROUP: nat := 0x10_0000
  const SMALL_WRITE: nat := 0x2_0000

  function Limit(first: nat): nat {
    if first <= SMALL_WRITE then first + SMALL_WRITE else MAX_GROUP
  }

  /** Writer i may ride with the front writer, given that all before it do. */
  predicate Joins(ws: seq<Request>, i: nat)
    requires i < |ws|
  {
    i > 0 ==>
      && (ws[i].sync ==> ws[0].sync)
      && (ws[i].batch.Some? ==> SizeOf(ws[..i + 1]) <= Limit(Size(ws[0])))
  }

  predicate Together(ws: seq<Request>, n: nat) {
    1 <= n <= |ws| && ws[0].batch.Some? && forall i: nat :: i < n ==> Joins(ws, i)
  }

  /** The first n writers are a group, and the next one, if any, may not join it. */
  predicate IsGroup(ws: seq<Request>, n: nat) {
    Together(ws, n) && (n < |ws| ==> !Joins(ws, n))
  }

  lemma GroupIsUnique(ws: seq<Request>, n: nat, m: nat)
    requires IsGroup(ws, n) && IsGroup(ws, m)
    ensures n == m
  {
    if n < |ws| {
      var next := Joins(ws, n);
    }
    if m < |ws| {
      var next := Joins(ws, m);
    }
  }

  /** No sync write rides with a front writer that does not sync, and a group of more than one batch stays small. */
  lemma GroupLimits(ws: seq<Request>, n: nat, i: nat)
    requires IsGroup(ws, n) && 0 < i < n
    ensures ws[i].sync ==> ws[0].sync
    ensures ws[i].batch.Some? ==> SizeOf(ws[..n]) <= Limit(Size(ws[0])) <= 1048576
    ensures ws[i].batch.Some? && ws[0].batch.value.size <= 131072 ==> SizeOf(ws[..n]) <= ws[0].batch.value.size + 131072
    decreases n - i
  {
    assert Joins(ws, i);
    if ws[i].batch.Some? {
      TailSize(ws, i + 1, n);
    }
  }

  /** A group is as large as it may be: the next writer waits only if it syncs and the leader does not, or its batch
      would bring the group over its limit, which is 1 MB, but for a small first batch only 128 KB more than that. */
  lemma GroupIsMaximal(ws: seq<Request>, n: nat)
    requires IsGroup(ws, n) && n < |ws|
    ensures || (ws[n].sync && !ws[0].sync)
            || (ws[n].batch.Some?
                && SizeOf(ws[..n]) + ws[n].batch.value.size
                   > if ws[0].batch.value.size <= 131072 then ws[0].batch.value.size + 131072 else 1048576)
  {
    assert ws[..n + 1][..n] == ws[..n];
  }

  lemma {:induction false} TailSize(ws: seq<Request>, i: nat, n: nat)
    requires Together(ws, n) && 0 < i <= n && SizeOf(ws[..i]) <= Limit(Size(ws[0]))
    ensures SizeOf(ws[..n]) <= Limit(Size(ws[0]))
    decreases n - i
  {
    if i < n {
      assert Joins(ws, i);
      assert ws[..i + 1][..i] == ws[..i];
      TailSize(ws, i + 1, n);
    }
  }

  /** Returns the index of the last writer in the group and the batch that holds all of its operations. */
  method BuildBatchGroup(writers: seq<Request>) returns (last: nat, result: seq<Stores.Op>)
    requires writers != [] && writers[0].batch.Some?
    ensures IsGroup(writers, last + 1) && result == OpsOf(writers[..last + 1])
  {
    var first := writers[0];
    result := first.batch.value.ops;
    var size := first.batch.value.size;
    var maxSize := MAX_GROUP;
    if size <= SMALL_WRITE {
      maxSize := size + SMALL_WRITE;
    }
    last := 0;
    assert writers[..1][..0] == [];
    var iter := 1;
    while iter < |writers|
      invariant last + 1 == iter <= |writers|
      invariant Together(writers, iter) && maxSize == Limit(Size(first))
      invariant size == SizeOf(writers[..iter]) && result == OpsOf(writers[..iter])
    {
      var w := writers[iter];
      assert writers[..iter + 1][..iter] == writers[..iter];
      if w.sync && !first.sync {
        break;
      }
      if w.batch.Some? {
        size := size + w.batch.value.size;
        if size > maxSize {
          break;
        }
        result := result + w.batch.value.ops;
      }
      last := iter;
      iter := iter + 1;
    }
  }

  /** Takes writers off the queue up to and including the last of the group. */
  method PopGroup(queue: seq<nat>, last: nat) returns (released: seq<nat>, rest: seq<nat>)
    requires last in queue
    ensures released + rest == queue && released != [] && released[|released| - 1] == last
    ensures last !in released[..|released| - 1]
  {
    released, rest := [], queue;
    while true
      invariant released + rest == queue && last !in released
      decreases |rest|
    {
      assert last in rest;
      var ready := rest[0];
      released, rest := released + [ready], rest[1..];
      if ready == last {
        break;
      }
    }
  }

  // ---- the protocol ----

  /** What the leader does between releasing the mutex and taking it again. */
  datatype Stage = Logging | Syncing | Inserting(inserted: nat) | Failed(syncError: bool, inLog: bool)

  datatype Phase = Idle | Leading(members: nat, stage: Stage)

  /** Refused: no room, nothing was done. Lost: the log failed after the sequence numbers were taken, and the
      record may or may not be in it. */
  datatype Outcome = Refused | Lost(inLog: bool) | Applied

  datatype Record = Record(first: nat, ops: seq<Stores.Op>, synced: bool)

  /** Writers are numbered in the order they took the mutex. entries are what the memtables hold, oldest first. */
  datatype State = State(arrived: seq<Request>, queue: seq<nat>, returned: map<nat, Outcome>, awake: set<nat>,
                         phase: Phase, log: seq<Record>, entries: seq<Entry>, start: nat, lastSequence: nat,
                         error: bool)

  predicate Init(s: State) {
    s == State([], [], map[], {}, Idle, [], [], s.start, s.start, false)
  }

  predicate QueueOk(s: State) {
    |s.queue| <= |s.arrived| && forall i :: 0 <= i < |s.queue| ==> s.queue[i] == |s.arrived| - |s.queue| + i
  }

  /** The requests still in the queue. */
  function Waiting(s: State): seq<Request>
    requires QueueOk(s)
  {
    s.arrived[|s.arrived| - |s.queue|..]
  }

  function GroupOps(s: State): seq<Stores.Op>
    requires QueueOk(s) && s.phase.Leading? && s.phase.members <= |s.queue|
  {
    OpsOf(Waiting(s)[..s.phase.members])
  }

  /** The first n writers return, and the new front of the queue is woken. */
  function Release(s: State, n: nat, outcome: Outcome): State
    requires n <= |s.queue|
  {
    var rest := s.queue[n..];
    s.(queue := rest,
       returned := s.returned + map id | id in s.queue[..n] :: outcome,
       awake := s.awake + (set id | id in s.queue[..n]) + (if rest == [] then {} else {rest[0]}),
       phase := Idle)
  }

  predicate Arrive(s: State, s': State, w: Request) {
    s' == s.(arrived := s.arrived + [w], queue := s.queue + [|s.arrived|],
             awake := if s.queue == [] then s.awake + {|s.arrived|} else s.awake)
  }

  /** The front writer runs once it is awake and no other writer leads. */
  predicate CanLead(s: State) {
    QueueOk(s) && s.phase.Idle? && s.queue != [] && s.queue[0] in s.awake
  }

  /** MakeRoomForWrite failed: a background error, or no new log file. */
  predicate Refuse(s: State, s': State) {
    CanLead(s) && s' == Release(s, 1, Refused)
  }

  predicate LeadNull(s: State, s': State) {
    CanLead(s) && !s.error && Waiting(s)[0].batch.None? && s' == Release(s, 1, Applied)
  }

  predicate LeadGroup(s: State, s': State, n: nat) {
    CanLead(s) && !s.error && IsGroup(Waiting(s), n) && s' == s.(phase := Leading(n, Logging))
  }

  predicate InStage(s: State) {
    QueueOk(s) && s.phase.Leading? && s.phase.members <= |s.queue|
  }

  function AtStage(s: State, stage: Stage): State
    requires s.phase.Leading?
  {
    s.(phase := s.phase.(stage := stage))
  }

  predicate AppendLog(s: State, s': State) {
    && InStage(s) && s.phase.stage == Logging && s.queue != []
    && s' == AtStage(s.(log := s.log + [Record(s.lastSequence + 1, GroupOps(s), false)]),
                     if Waiting(s)[0].sync then Syncing else Inserting(0))
  }

  predicate AppendFails(s: State, s': State, inLog: bool) {
    && InStage(s) && s.phase.stage == Logging
    && s' == AtStage(if inLog then s.(log := s.log + [Record(s.lastSequence + 1, GroupOps(s), false)]) else s,
                     Failed(false, inLog))
  }

  predicate Sync(s: State, s': State) {
    && InStage(s) && s.phase.stage == Syncing && s.log != []
    && s' == AtStage(s.(log := s.log[..|s.log| - 1] + [s.log[|s.log| - 1].(synced := true)]), Inserting(0))
  }

  predicate SyncFails(s: State, s': State) {
    InStage(s) && s.phase.stage == Syncing && s' == AtStage(s, Failed(true, true))
  }

  /** One operation of the group goes into the memtable. */
  predicate Insert(s: State, s': State) {
    && InStage(s) && s.phase.stage.Inserting? && s.phase.stage.inserted < |GroupOps(s)|
    && s' == AtStage(s.(entries := s.entries + [Stores.OpEntry(GroupOps(s)[s.phase.stage.inserted],
                                                               s.lastSequence + 1 + s.phase.stage.inserted)]),
                     Inserting(s.phase.stage.inserted + 1))
  }

  /** The leader takes the mutex back, publishes the last sequence number and releases its group. */
  predicate Finish(s: State, s': State) {
    && InStage(s)
    && (s.phase.stage == Inserting(|GroupOps(s)|) || s.phase.stage.Failed?)
    && s' == Release(s.(lastSequence := s.lastSequence + |GroupOps(s)|,
                        error := s.error || (s.phase.stage.Failed? && s.phase.stage.syncError)),
                     s.phase.members,
                     if s.phase.stage.Failed? then Lost(s.phase.stage.inLog) else Applied)
  }

  predicate BackgroundError(s: State, s': State) {
    s' == s.(error := true)
  }

  ghost predicate Next(s: State, s': State) {
    || (exists w :: Arrive(s, s', w))
    || Refuse(s, s') || LeadNull(s, s') || (exists n :: LeadGroup(s, s', n))
    || AppendLog(s, s') || (exists inLog :: AppendFails(s, s', inLog))
    || Sync(s, s') || SyncFails(s, s') || Insert(s, s') || Finish(s, s') || BackgroundError(s, s')
  }

  ghost predicate Run(run: seq<State>) {
    |run| > 0 && Init(run[0]) && forall i :: 0 <= i < |run| - 1 ==> Next(run[i], run[i + 1])
  }

  // ---- the reference: one writer after another ----

  function Numbered(ops: seq<Stores.Op>, first: nat): (es: seq<Entry>)
    ensures |es| == |ops|
  {
    seq(|ops|, i requires 0 <= i < |ops| => Stores.OpEntry(ops[i], first + i))
  }

  predicate ReturnedUpTo(s: State, n: nat) {
    n <= |s.arrived| && forall id: nat :: id < n ==> id in s.returned
  }

  /** The last sequence number before writer n, had the writers come one at a time. */
  function Before(s: State, n: nat): nat
    requires ReturnedUpTo(s, n)
  {
    if n == 0 then s.start
    else Before(s, n - 1) + if s.returned[n - 1].Refused? then 0 else |Ops(s.arrived[n - 1])|
  }

  predicate Kept(o: Outcome, fromLog: bool) {
    o.Applied? || (fromLog && o == Lost(true))
  }

  /** The entries of the first n writers, had they come one at a time: those a reader may see, or those in the log. */
  function History(s: State, n: nat, fromLog: bool): seq<Entry>
    requires ReturnedUpTo(s, n)
  {
    if n == 0 then []
    else History(s, n - 1, fromLog)
         + if Kept(s.returned[n - 1], fromLog) then Numbered(Ops(s.arrived[n - 1]), Before(s, n - 1) + 1) else []
  }

  function LogEntries(log: seq<Record>): seq<Entry> {
    if log == [] then []
    else LogEntries(log[..|log| - 1]) + Numbered(log[|log| - 1].ops, log[|log| - 1].first)
  }

  // ---- the invariant ----

  /** How many writers have returned. */
  function Gone(s: State): nat
    requires QueueOk(s)
  {
    |s.arrived| - |s.queue|
  }

  predicate Settled(s: State) {
    && QueueOk(s) && ReturnedUpTo(s, Gone(s)) && (forall id :: id in s.returned ==> id < Gone(s))
    && s.lastSequence == Before(s, Gone(s))
  }

  predicate Progress(s: State)
    requires Settled(s)
  {
    var seen, logged := History(s, Gone(s), false), History(s, Gone(s), true);
    match s.phase
    case Idle => s.entries == seen && LogEntries(s.log) == logged
    case Leading(m, stage) =>
      && Together(Waiting(s), m)
      && var group := Numbered(GroupOps(s), s.lastSequence + 1);
         match stage
         case Logging => s.entries == seen && LogEntries(s.log) == logged
         case Syncing => s.entries == seen && LogEntries(s.log) == logged + group && LastIsGroup(s)
         case Inserting(k) =>
           && k <= |group| && s.entries == seen + group[..k] && LogEntries(s.log) == logged + group
           && LastIsGroup(s) && (Waiting(s)[0].sync ==> s.log[|s.log| - 1].synced)
         case Failed(_, inLog) =>
           s.entries == seen && LogEntries(s.log) == if inLog then logged + group else logged
  }

  /** The record just appended holds the group. */
  predicate LastIsGroup(s: State)
    requires InStage(s)
  {
    && s.log != [] && s.log[|s.log| - 1].ops == GroupOps(s) && s.log[|s.log| - 1].first == s.lastSequence + 1
  }

  /** Whoever has returned, and whoever is at the front, has been woken. */
  predicate NobodyStranded(s: State) {
    (forall id :: id in s.returned ==> id in s.awake) && (s.queue != [] ==> s.queue[0] in s.awake)
  }

  /** A record that holds these operations under these sequence numbers. */
  predicate Holds(r: Record, ops: seq<Stores.Op>, first: nat) {
    && r.first <= first && first - r.first + |ops| <= |r.ops|
    && r.ops[first - r.first..first - r.first + |ops|] == ops
  }

  ghost predicate Durable(s: State)
    requires Settled(s)
  {
    forall id: nat :: id < Gone(s) && s.returned[id].Applied? && s.arrived[id].sync && s.arrived[id].batch.Some? ==>
      exists r :: r in s.log && r.synced && Holds(r, Ops(s.arrived[id]), Before(s, id) + 1)
  }

  ghost predicate Inv(s: State) {
    Settled(s) && Progress(s) && NobodyStranded(s) && Durable(s)
  }

  // ---- the steps keep the invariant ----

  predicate SamePast(s: State, s': State, n: nat) {
    && s'.start == s.start && ReturnedUpTo(s, n) && ReturnedUpTo(s', n)
    && s'.arrived[..n] == s.arrived[..n] && forall id: nat :: id < n ==> s'.returned[id] == s.returned[id]
  }

  lemma {:induction false} PastIsFixed(s: State, s': State, n: nat)
    requires SamePast(s, s', n)
    ensures Before(s', n) == Before(s, n)
    ensures forall fromLog :: History(s', n, fromLog) == History(s, n, fromLog)
  {
    if n > 0 {
      assert s'.arrived[n - 1] == s'.arrived[..n][n - 1] == s.arrived[n - 1];
      assert s'.arrived[..n - 1] == s'.arrived[..n][..n - 1] == s.arrived[..n - 1];
      PastIsFixed(s, s', n - 1);
    }
  }

  lemma NumberedAppend(a: seq<Stores.Op>, b: seq<Stores.Op>, first: nat)
    ensures Numbered(a + b, first) == Numbered(a, first) + Numbered(b, first + |a|)
  {
  }

  /** m writers that return together have the sequence numbers they would have one after another. */
  lemma {:induction false} GroupBefore(s: State, n: nat, m: nat, outcome: Outcome)
    requires ReturnedUpTo(s, n + m) && forall id: nat :: n <= id < n + m ==> s.returned[id] == outcome
    ensures Before(s, n + m) == Before(s, n) + if outcome.Refused? then 0 else |OpsOf(s.arrived[n..n + m])|
  {
    if m > 0 {
      GroupBefore(s, n, m - 1, outcome);
      OpsOfSlice(s.arrived, n, m);
      hide OpsOf, Ops;
    }
  }

  /** They leave the entries they would have one after another. */
  lemma {:induction false} GroupHistory(s: State, n: nat, m: nat, outcome: Outcome, fromLog: bool)
    requires ReturnedUpTo(s, n + m) && forall id: nat :: n <= id < n + m ==> s.returned[id] == outcome
    ensures History(s, n + m, fromLog) == History(s, n, fromLog)
              + if Kept(outcome, fromLog) then Numbered(OpsOf(s.arrived[n..n + m]), Before(s, n) + 1) else []
  {
    hide Before, Numbered, History, OpsOf, Ops;
    var h, first := History(s, n, fromLog), Before(s, n) + 1;
    if m == 0 {
      NoOps(s.arrived, n, first);
      assert h + [] == h;
    } else {
      GroupHistory(s, n, m - 1, outcome, fromLog);
      GroupBefore(s, n, m - 1, outcome);
      HistoryOne(s, n + m - 1, fromLog);
      OpsOfSlice(s.arrived, n, m);
      var a, b := OpsOf(s.arrived[n..n + (m - 1)]), Ops(s.arrived[n + m - 1]);
      if Kept(outcome, fromLog) {
        NumberedAppend(a, b, first);
        Regroup(h, Numbered(a, first), Numbered(b, first + |a|));
      } else {
        assert h + [] + [] == h + [];
      }
    }
  }

  lemma NoOps(ws: seq<Request>, n: nat, first: nat)
    requires n <= |ws|
    ensures OpsOf(ws[n..n]) == [] && Numbered([], first) == []
  {
  }

  lemma HistoryOne(s: State, n: nat, fromLog: bool)
    requires ReturnedUpTo(s, n + 1)
    ensures History(s, n + 1, fromLog) == History(s, n, fromLog)
              + if Kept(s.returned[n], fromLog) then Numbered(Ops(s.arrived[n]), Before(s, n) + 1) else []
  {
    hide Before, Numbered, Ops;
  }

  lemma OpsOfSlice(ws: seq<Request>, n: nat, m: nat)
    requires 0 < m && n + m <= |ws|
    ensures OpsOf(ws[n..n + m]) == OpsOf(ws[n..n + (m - 1)]) + Ops(ws[n + m - 1])
  {
    hide Ops;
    SliceHead(ws, n, m);
    assert ws[n..n + m][m - 1] == ws[n + m - 1];
  }

  lemma SliceHead(ws: seq<Request>, n: nat, m: nat)
    requires 0 < m && n + m <= |ws|
    ensures ws[n..n + m][..m - 1] == ws[n..n + (m - 1)]
  {
  }

  lemma ReleaseQueue(s: State, n: nat, outcome: Outcome)
    requires QueueOk(s) && ReturnedUpTo(s, Gone(s)) && (forall id :: id in s.returned ==> id < Gone(s))
    requires n <= |s.queue|
    ensures var s' := Release(s, n, outcome);
            && s'.arrived == s.arrived && QueueOk(s') && Gone(s') == Gone(s) + n && SamePast(s, s', Gone(s))
            && ReturnedUpTo(s', Gone(s) + n) && (forall id :: id in s'.returned ==> id < Gone(s'))
            && (forall id: nat :: Gone(s) <= id < Gone(s) + n ==> s'.returned[id] == outcome)
  {
    var s' := Release(s, n, outcome);
    forall id: nat | Gone(s) <= id < Gone(s) + n
      ensures id in s'.returned && s'.returned[id] == outcome
    {
      assert s.queue[..n][id - Gone(s)] == id;
    }
  }

  /** Releasing a group gives the past in which its members came one after another. */
  lemma ReleasePast(s: State, n: nat, outcome: Outcome)
    requires Settled(s) && n <= |s.queue|
    ensures var s' := Release(s, n, outcome);
            && QueueOk(s') && Gone(s') == Gone(s) + n && ReturnedUpTo(s', Gone(s')) && SamePast(s, s', Gone(s))
            && (forall id :: id in s'.returned ==> id < Gone(s'))
            && (forall id: nat :: Gone(s) <= id < Gone(s') ==> s'.returned[id] == outcome)
            && Before(s', Gone(s')) == s.lastSequence + (if outcome.Refused? then 0 else |OpsOf(Waiting(s)[..n])|)
            && forall fromLog :: History(s', Gone(s'), fromLog) == History(s, Gone(s), fromLog)
                 + if Kept(outcome, fromLog) then Numbered(OpsOf(Waiting(s)[..n]), s.lastSequence + 1) else []
  {
    hide Before, History, OpsOf, Numbered, Release, SamePast;
    ReleaseQueue(s, n, outcome);
    ReleaseBefore(s, n, outcome);
    ReleaseHistory(s, n, outcome, false);
    ReleaseHistory(s, n, outcome, true);
  }

  lemma ReleaseBefore(s: State, n: nat, outcome: Outcome)
    requires Settled(s) && n <= |s.queue|
    ensures var s' := Release(s, n, outcome);
            && QueueOk(s') && ReturnedUpTo(s', Gone(s'))
            && Before(s', Gone(s')) == s.lastSequence + (if outcome.Refused? then 0 else |OpsOf(Waiting(s)[..n])|)
  {
    hide Before, OpsOf, Release;
    ReleaseQueue(s, n, outcome);
    var s' := Release(s, n, outcome);
    PastIsFixed(s, s', Gone(s));
    GroupBefore(s', Gone(s), n, outcome);
    WaitingSlice(s, n);
  }

  lemma ReleaseHistory(s: State, n: nat, outcome: Outcome, fromLog: bool)
    requires Settled(s) && n <= |s.queue|
    ensures var s' := Release(s, n, outcome);
            && QueueOk(s') && ReturnedUpTo(s', Gone(s'))
            && History(s', Gone(s'), fromLog) == History(s, Gone(s), fromLog)
                 + if Kept(outcome, fromLog) then Numbered(OpsOf(Waiting(s)[..n]), s.lastSequence + 1) else []
  {
    hide Before, History, OpsOf, Numbered, Release;
    ReleaseQueue(s, n, outcome);
    var s' := Release(s, n, outcome);
    PastIsFixed(s, s', Gone(s));
    GroupHistory(s', Gone(s), n, outcome, fromLog);
    WaitingSlice(s, n);
  }

  lemma WaitingSlice(s: State, n: nat)
    requires QueueOk(s) && n <= |s.queue|
    ensures s.arrived[Gone(s)..Gone(s) + n] == Waiting(s)[..n]
  {
  }

  lemma ReleaseWakes(s: State, n: nat, outcome: Outcome)
    requires NobodyStranded(s) && n <= |s.queue|
    ensures NobodyStranded(Release(s, n, outcome))
  {
  }

  lemma ArriveKeepsInv(s: State, s': State, w: Request)
    requires Inv(s) && Arrive(s, s', w)
    ensures Inv(s')
  {
    hide Before, History, LogEntries, OpsOf, Holds;
    assert SamePast(s, s', Gone(s)) && Gone(s') == Gone(s);
    PastIsFixed(s, s', Gone(s));
    assert Waiting(s') == Waiting(s) + [w];
    if s.phase.Leading? {
      TogetherGrows(Waiting(s), [w], s.phase.members);
      assert Waiting(s')[..s.phase.members] == Waiting(s)[..s.phase.members];
    }
    DurableKept(s, s');
  }

  lemma TogetherGrows(ws: seq<Request>, more: seq<Request>, n: nat)
    requires Together(ws, n)
    ensures Together(ws + more, n)
  {
    forall i: nat | i < n
      ensures Joins(ws + more, i)
    {
      assert Joins(ws, i);
      assert (ws + more)[..i + 1] == ws[..i + 1];
    }
  }

  /** Synced records stay, so what was durable stays durable. */
  lemma DurableKept(s: State, s': State)
    requires Settled(s) && Durable(s) && SamePast(s, s', Gone(s)) && QueueOk(s')
    requires forall r :: r in s.log && r.synced ==> r in s'.log
    ensures forall id: nat ::
              id < Gone(s) && s'.returned[id].Applied? && s'.arrived[id].sync && s'.arrived[id].batch.Some? ==>
              exists r :: r in s'.log && r.synced && Holds(r, Ops(s'.arrived[id]), Before(s', id) + 1)
  {
    hide Before, Holds;
    forall id: nat | id < Gone(s) && s'.returned[id].Applied? && s'.arrived[id].sync && s'.arrived[id].batch.Some?
      ensures exists r :: r in s'.log && r.synced && Holds(r, Ops(s'.arrived[id]), Before(s', id) + 1)
    {
      assert s'.arrived[id] == s'.arrived[..Gone(s)][id] == s.arrived[id];
      assert s'.arrived[..id] == s'.arrived[..Gone(s)][..id] == s.arrived[..id];
      PastIsFixed(s, s', id);
      var r :| r in s.log && r.synced && Holds(r, Ops(s.arrived[id]), Before(s, id) + 1);
    }
  }

  lemma RefuseKeepsInv(s: State, s': State)
    requires Inv(s) && Refuse(s, s')
    ensures Inv(s')
  {
    hide Before, History, LogEntries, OpsOf, Holds, SamePast;
    ReleasePast(s, 1, Refused);
    ReleaseWakes(s, 1, Refused);
    DurableKept(s, s');
  }

  lemma LeadNullKeepsInv(s: State, s': State)
    requires Inv(s) && LeadNull(s, s')
    ensures Inv(s')
  {
    hide Before, History, LogEntries, Holds, SamePast;
    ReleasePast(s, 1, Applied);
    ReleaseWakes(s, 1, Applied);
    assert Waiting(s)[..1] == [Waiting(s)[0]];
    assert OpsOf(Waiting(s)[..1]) == [];
    DurableKept(s, s');
    assert s'.arrived[Gone(s)] == Waiting(s)[0];
  }

  lemma LeadGroupKeepsInv(s: State, s': State, n: nat)
    requires Inv(s) && LeadGroup(s, s', n)
    ensures Inv(s')
  {
    hide Before, History, LogEntries, OpsOf, Holds, Joins;
    PastIsFixed(s, s', Gone(s));
    DurableKept(s, s');
  }

  lemma LogAppend(log: seq<Record>, r: Record)
    ensures LogEntries(log + [r]) == LogEntries(log) + Numbered(r.ops, r.first)
  {
    assert (log + [r])[..|log|] == log;
  }

  lemma LogSynced(log: seq<Record>, r: Record)
    requires log != [] && r.ops == log[|log| - 1].ops && r.first == log[|log| - 1].first
    ensures LogEntries(log[..|log| - 1] + [r]) == LogEntries(log)
  {
    LogAppend(log[..|log| - 1], r);
  }

  lemma AppendKeepsInv(s: State, s': State)
    requires Inv(s) && (AppendLog(s, s') || exists inLog :: AppendFails(s, s', inLog))
    ensures Inv(s')
  {
    hide Before, History, LogEntries, OpsOf, Holds, Together;
    PastIsFixed(s, s', Gone(s));
    LogAppend(s.log, Record(s.lastSequence + 1, GroupOps(s), false));
    assert forall es: seq<Entry> :: es + [] == es;
    DurableKept(s, s');
    assert GroupOps(s') == GroupOps(s);
    assert Numbered(GroupOps(s), s.lastSequence + 1)[..0] == [];
  }

  lemma SyncKeepsInv(s: State, s': State)
    requires Inv(s) && (Sync(s, s') || SyncFails(s, s'))
    ensures Inv(s')
  {
    hide Before, History, LogEntries, OpsOf, Holds, Together;
    PastIsFixed(s, s', Gone(s));
    LogSynced(s.log, s.log[|s.log| - 1].(synced := true));
    forall r | r in s.log && r.synced
      ensures r in s'.log
    {
      var i :| 0 <= i < |s.log| && s.log[i] == r;
      assert Sync(s, s') ==> s'.log[i] == r;
    }
    DurableKept(s, s');
    assert GroupOps(s') == GroupOps(s);
    assert Numbered(GroupOps(s), s.lastSequence + 1)[..0] == [];
  }

  lemma InsertKeepsInv(s: State, s': State)
    requires Inv(s) && Insert(s, s')
    ensures Inv(s')
  {
    hide Before, History, LogEntries, OpsOf, Holds, Together;
    PastIsFixed(s, s', Gone(s));
    DurableKept(s, s');
    assert GroupOps(s') == GroupOps(s);
    var group, k := Numbered(GroupOps(s), s.lastSequence + 1), s.phase.stage.inserted;
    assert group[..k + 1] == group[..k] + [group[k]];
  }

  lemma {:induction false} OpsPart(ws: seq<Request>, i: nat)
    requires i < |ws|
    ensures var k := |OpsOf(ws[..i])|;
            k + |Ops(ws[i])| <= |OpsOf(ws)| && OpsOf(ws)[k..k + |Ops(ws[i])|] == Ops(ws[i])
  {
    var n := |ws| - 1;
    if i < n {
      OpsPart(ws[..n], i);
      assert ws[..n][..i] == ws[..i];
    }
  }

  /** A returned member of the group finds its operations in the group's record. */
  lemma MemberHeld(s: State, s': State, r: Record, i: nat)
    requires Settled(s) && s.phase.Leading? && s.phase.members <= |s.queue| && i < s.phase.members
    requires s' == Release(s, s.phase.members, Applied)
    requires r.ops == GroupOps(s) && r.first == s.lastSequence + 1
    ensures ReturnedUpTo(s', Gone(s) + i)
    ensures Holds(r, Ops(Waiting(s)[i]), Before(s', Gone(s) + i) + 1)
  {
    hide Before, OpsOf, Holds, Release;
    MemberStart(s, i);
    var ws := Waiting(s)[..s.phase.members];
    assert ws[i] == Waiting(s)[i] && ws[..i] == Waiting(s)[..i];
    PartIsHeld(r, ws, i);
  }

  /** Where a member's numbers start: behind those of the members before it. */
  lemma MemberStart(s: State, i: nat)
    requires Settled(s) && s.phase.Leading? && s.phase.members <= |s.queue| && i < s.phase.members
    ensures var s' := Release(s, s.phase.members, Applied);
            ReturnedUpTo(s', Gone(s) + i) && Before(s', Gone(s) + i) == s.lastSequence + |OpsOf(Waiting(s)[..i])|
  {
    hide Before, OpsOf, Release;
    ReleaseQueue(s, s.phase.members, Applied);
    var s' := Release(s, s.phase.members, Applied);
    PastIsFixed(s, s', Gone(s));
    GroupBefore(s', Gone(s), i, Applied);
    WaitingSlice(s, i);
  }

  lemma PartIsHeld(r: Record, ws: seq<Request>, i: nat)
    requires r.ops == OpsOf(ws) && i < |ws|
    ensures Holds(r, Ops(ws[i]), r.first + |OpsOf(ws[..i])|)
  {
    hide OpsOf, Ops;
    OpsPart(ws, i);
  }

  function Verdict(stage: Stage): Outcome {
    if stage.Failed? then Lost(stage.inLog) else Applied
  }

  /** The state after Finish differs from a plain release only in two fields no past depends on. */
  lemma FinishIsRelease(s: State, s': State)
    requires Settled(s) && Finish(s, s')
    ensures InStage(s)
    ensures var t := Release(s, s.phase.members, Verdict(s.phase.stage));
            s' == t.(lastSequence := s.lastSequence + |GroupOps(s)|, error := s'.error)
    ensures s'.log == s.log && s'.entries == s.entries && s'.phase.Idle? && s'.start == s.start
    ensures s'.arrived == s.arrived
  {
    hide Before, GroupOps;
  }

  lemma FinishPast(s: State, s': State)
    requires Settled(s) && Finish(s, s')
    ensures Settled(s') && Gone(s') == Gone(s) + s.phase.members && SamePast(s, s', Gone(s))
    ensures forall id: nat :: Gone(s) <= id < Gone(s') ==> s'.returned[id] == Verdict(s.phase.stage)
    ensures forall fromLog :: History(s', Gone(s'), fromLog) == History(s, Gone(s), fromLog)
              + if Kept(Verdict(s.phase.stage), fromLog) then Numbered(GroupOps(s), s.lastSequence + 1) else []
  {
    hide Before, History, OpsOf, Release, Numbered, Finish;
    FinishIsRelease(s, s');
    ReleasePast(s, s.phase.members, Verdict(s.phase.stage));
    var t := Release(s, s.phase.members, Verdict(s.phase.stage));
    PastIsFixed(t, s', Gone(s'));
  }

  lemma FinishKeepsInv(s: State, s': State)
    requires Inv(s) && Finish(s, s')
    ensures Inv(s')
  {
    hide Before, History, LogEntries, OpsOf, Holds, Joins, SamePast, Numbered, Release, Settled;
    FinishPast(s, s');
    FinishIsRelease(s, s');
    ReleaseWakes(s, s.phase.members, Verdict(s.phase.stage));
    var group := Numbered(GroupOps(s), s.lastSequence + 1);
    assert group[..|group|] == group;
    assert forall es: seq<Entry> :: es + [] == es;
    FinishDurable(s, s');
  }

  lemma FinishDurable(s: State, s': State)
    requires Inv(s) && Finish(s, s')
    ensures Settled(s') && Durable(s')
  {
    hide Before, History, LogEntries, OpsOf, Holds, SamePast, Numbered, Joins, Release, Finish, Progress;
    FinishIsRelease(s, s');
    FinishPast(s, s');
    DurableKept(s, s');
    if !s.phase.stage.Failed? {
      forall id: nat | Gone(s) <= id < Gone(s') && s'.arrived[id].sync
        ensures exists r :: r in s'.log && r.synced && Holds(r, Ops(s'.arrived[id]), Before(s', id) + 1)
      {
        MemberDurable(s, s', id - Gone(s));
      }
    }
  }

  /** A sync member of a group that was applied is in the record just synced. */
  lemma MemberDurable(s: State, s': State, i: nat)
    requires Settled(s) && Progress(s) && Finish(s, s') && !s.phase.stage.Failed? && i < s.phase.members
    requires Settled(s') && Gone(s') == Gone(s) + s.phase.members && Waiting(s)[i].sync
    ensures s'.arrived[Gone(s) + i] == Waiting(s)[i]
    ensures exists r :: r in s'.log && r.synced && Holds(r, Ops(Waiting(s)[i]), Before(s', Gone(s) + i) + 1)
  {
    hide Before, History, LogEntries, OpsOf, Holds, Numbered;
    assert Joins(Waiting(s), i);
    var t := Release(s, s.phase.members, Applied);
    var r := s.log[|s.log| - 1];
    MemberHeld(s, t, r, i);
    PastIsFixed(t, s', Gone(s) + i);
    assert r in s'.log && r.synced && Holds(r, Ops(Waiting(s)[i]), Before(s', Gone(s) + i) + 1);
  }

  lemma ErrorKeepsInv(s: State, s': State)
    requires Inv(s) && BackgroundError(s, s')
    ensures Inv(s')
  {
    hide Before, History, LogEntries, OpsOf, Holds, Joins;
    PastIsFixed(s, s', Gone(s));
    DurableKept(s, s');
    assert Waiting(s') == Waiting(s);
  }

  lemma NextKeepsInv(s: State, s': State)
    requires Inv(s) && Next(s, s')
    ensures Inv(s')
  {
    hide Inv, Arrive, Refuse, LeadNull, LeadGroup, AppendLog, AppendFails, Sync, SyncFails, Insert, Finish,
      BackgroundError;
    if w :| Arrive(s, s', w) {
      ArriveKeepsInv(s, s', w);
    } else if Refuse(s, s') {
      RefuseKeepsInv(s, s');
    } else if LeadNull(s, s') {
      LeadNullKeepsInv(s, s');
    } else if n :| LeadGroup(s, s', n) {
      LeadGroupKeepsInv(s, s', n);
    } else if AppendLog(s, s') || exists inLog :: AppendFails(s, s', inLog) {
      AppendKeepsInv(s, s');
    } else if Sync(s, s') || SyncFails(s, s') {
      SyncKeepsInv(s, s');
    } else if Insert(s, s') {
      InsertKeepsInv(s, s');
    } else if Finish(s, s') {
      FinishKeepsInv(s, s');
    } else {
      ErrorKeepsInv(s, s');
    }
  }

  /** Every state of every run is the state of writers that came one at a time, plus at most one group on its way. */
  lemma {:induction false} RunInv(run: seq<State>, i: nat)
    requires Run(run) && i < |run|
    ensures Inv(run[i])
  {
    hide Inv, Next;
    if i == 0 {
      InitInv(run[0]);
    } else {
      RunInv(run, i - 1);
      NextKeepsInv(run[i - 1], run[i - 1 + 1]);
    }
  }

  lemma InitInv(s: State)
    requires Init(s)
    ensures Inv(s)
  {
  }

  // ---- what readers see ----

  /** What a reader who takes the last sequence number as its snapshot may see, even while a group is inserted. */
  ghost function Seen(s: State, snapshot: nat): set<Entry> {
    set e | e in s.entries && e.key.sequence <= snapshot
  }

  lemma NumberedRange(ops: seq<Stores.Op>, first: nat, e: Entry)
    requires e in Numbered(ops, first)
    ensures first <= e.key.sequence < first + |ops|
  {
    var i :| 0 <= i < |ops| && Numbered(ops, first)[i] == e;
  }

  /** In the history, the sequence numbers of writer id hold its operations, or nothing. */
  lemma {:induction false} HistoryAt(s: State, n: nat, id: nat, fromLog: bool, e: Entry)
    requires ReturnedUpTo(s, n) && id < n
    ensures ReturnedUpTo(s, id + 1) && s.start <= Before(s, id) <= Before(s, id + 1) <= Before(s, n)
    ensures e in History(s, n, fromLog) && Before(s, id) < e.key.sequence <= Before(s, id + 1) <==>
            Kept(s.returned[id], fromLog) && e in Numbered(Ops(s.arrived[id]), Before(s, id) + 1)
  {
    hide Numbered, Before, History, Kept;
    HistoryLast(s, n, fromLog, e);
    HistoryRange(s, n - 1, fromLog, e);
    if id < n - 1 {
      HistoryAt(s, n - 1, id, fromLog, e);
    }
  }

  /** The history of n writers is that of the ones before the last, below its numbers, and the last one's own part. */
  lemma HistoryLast(s: State, n: nat, fromLog: bool, e: Entry)
    requires ReturnedUpTo(s, n) && n > 0
    ensures Before(s, n - 1) <= Before(s, n)
    ensures var own := Numbered(Ops(s.arrived[n - 1]), Before(s, n - 1) + 1);
            && (e in History(s, n, fromLog) <==>
                  e in History(s, n - 1, fromLog) || (Kept(s.returned[n - 1], fromLog) && e in own))
            && (Kept(s.returned[n - 1], fromLog) && e in own ==> Before(s, n - 1) < e.key.sequence <= Before(s, n))
  {
    hide Numbered;
    if e in Numbered(Ops(s.arrived[n - 1]), Before(s, n - 1) + 1) {
      NumberedRange(Ops(s.arrived[n - 1]), Before(s, n - 1) + 1, e);
    }
  }

  lemma {:induction false} HistoryRange(s: State, n: nat, fromLog: bool, e: Entry)
    requires ReturnedUpTo(s, n)
    ensures s.start <= Before(s, n)
    ensures e in History(s, n, fromLog) ==> s.start < e.key.sequence <= Before(s, n)
  {
    if n > 0 {
      HistoryRange(s, n - 1, fromLog, e);
      if e in Numbered(Ops(s.arrived[n - 1]), Before(s, n - 1) + 1) {
        NumberedRange(Ops(s.arrived[n - 1]), Before(s, n - 1) + 1, e);
      }
    }
  }

  /** The snapshot shows exactly what the writers that returned wrote, one after another. */
  lemma SeenIsHistory(s: State, e: Entry)
    requires Inv(s)
    ensures e in Seen(s, s.lastSequence) <==> e in History(s, Gone(s), false)
  {
    hide Before, History, LogEntries, OpsOf, Holds, Joins, Numbered;
    HistoryRange(s, Gone(s), false, e);
    if s.phase.Leading? {
      if e in Numbered(GroupOps(s), s.lastSequence + 1) {
        NumberedRange(GroupOps(s), s.lastSequence + 1, e);
      }
    }
  }

  /** All or nothing: a returned writer's sequence numbers show its whole batch if its write was applied, and nothing
      otherwise. */
  lemma BatchIsWhole(s: State, id: nat, e: Entry)
    requires Inv(s) && id < Gone(s)
    ensures e in Seen(s, s.lastSequence) && Before(s, id) < e.key.sequence <= Before(s, id + 1) <==>
            s.returned[id].Applied? && e in Numbered(Ops(s.arrived[id]), Before(s, id) + 1)
  {
    hide Before, History, LogEntries, OpsOf, Holds, Joins, Numbered, Progress;
    SeenIsHistory(s, e);
    HistoryAt(s, Gone(s), id, false, e);
  }

  /** Replaying the log after a crash at any moment gives each returned writer's batch whole or not at all, and every
      batch whose write was reported applied. */
  lemma LogIsWhole(s: State, id: nat, e: Entry)
    requires Inv(s) && id < Gone(s)
    ensures e in LogEntries(s.log) && Before(s, id) < e.key.sequence <= Before(s, id + 1) <==>
            s.returned[id] in {Applied, Lost(true)} && e in Numbered(Ops(s.arrived[id]), Before(s, id) + 1)
  {
    hide Before, History, LogEntries, OpsOf, Holds, Joins, Numbered;
    HistoryAt(s, Gone(s), id, true, e);
    HistoryRange(s, Gone(s), true, e);
    if s.phase.Leading? {
      if e in Numbered(GroupOps(s), s.lastSequence + 1) {
        NumberedRange(GroupOps(s), s.lastSequence + 1, e);
      }
    }
  }

  /** While no write is lost, the i-th operation ever applied has the i-th sequence number. */
  lemma {:induction false} SequencesAreContiguous(s: State, n: nat, i: nat)
    requires ReturnedUpTo(s, n) && forall id: nat :: id < n ==> !s.returned[id].Lost?
    ensures Before(s, n) == s.start + |History(s, n, false)|
    ensures i < |History(s, n, false)| ==> History(s, n, false)[i].key.sequence == s.start + 1 + i
  {
    hide Before, History, Numbered;
    if n == 0 {
      NoHistory(s);
    } else {
      SequencesAreContiguous(s, n - 1, i);
      HistoryStep(s, n);
      var before, own := History(s, n - 1, false), Numbered(Ops(s.arrived[n - 1]), Before(s, n - 1) + 1);
      if s.returned[n - 1].Applied? && |before| <= i < |before| + |own| {
        assert History(s, n, false)[i] == own[i - |before|];
        NumberedAt(Ops(s.arrived[n - 1]), Before(s, n - 1) + 1, i - |before|);
      }
    }
  }

  lemma NoHistory(s: State)
    ensures Before(s, 0) == s.start && History(s, 0, false) == []
  {
  }

  lemma NumberedAt(ops: seq<Stores.Op>, first: nat, k: nat)
    requires k < |ops|
    ensures Numbered(ops, first)[k].key.sequence == first + k
  {
  }

  lemma HistoryStep(s: State, n: nat)
    requires ReturnedUpTo(s, n) && n > 0 && !s.returned[n - 1].Lost?
    ensures Before(s, n) == Before(s, n - 1) + if s.returned[n - 1].Refused? then 0 else |Ops(s.arrived[n - 1])|
    ensures s.returned[n - 1].Refused? ==> History(s, n, false) == History(s, n - 1, false)
    ensures s.returned[n - 1].Applied? ==>
              History(s, n, false) == History(s, n - 1, false) + Numbered(Ops(s.arrived[n - 1]), Before(s, n - 1) + 1)
  {
    hide Numbered, Ops;
  }

  /** A step leaves every snapshot taken before it alone. */
  lemma NextKeepsSnapshots(s: State, s': State, snapshot: nat)
    requires Inv(s) && Next(s, s') && snapshot <= s.lastSequence
    ensures s.lastSequence <= s'.lastSequence && Seen(s', snapshot) == Seen(s, snapshot)
  {
    hide Before, History, LogEntries, OpsOf, Holds, Joins, Numbered, Durable, Progress;
  }

  lemma {:induction false} SnapshotsAreStable(run: seq<State>, i: nat, j: nat, snapshot: nat)
    requires Run(run) && i <= j < |run| && snapshot <= run[i].lastSequence
    ensures run[i].lastSequence <= run[j].lastSequence && Seen(run[j], snapshot) == Seen(run[i], snapshot)
    decreases j - i
  {
    hide Inv, Next, Seen;
    if i < j {
      SnapshotsAreStable(run, i, j - 1, snapshot);
      RunInv(run, j - 1);
      NextKeepsSnapshots(run[j - 1], run[j - 1 + 1], snapshot);
    }
  }

  /** To readers, a step is either nothing or one atomic write of a whole group; a failed group only uses up its
      sequence numbers. */
  lemma StepIsAtomicWrite(s: State, s': State)
    requires Inv(s) && Next(s, s')
    ensures if Finish(s, s') && !s.phase.stage.Failed? then
              && Seen(s', s'.lastSequence) == Seen(s, s.lastSequence) + Stores.BatchEntries(GroupOps(s), s.lastSequence)
              && s'.lastSequence == s.lastSequence + |GroupOps(s)|
            else
              && Seen(s', s'.lastSequence) == Seen(s, s.lastSequence)
              && (s'.lastSequence == s.lastSequence || Finish(s, s'))
  {
    hide Next, Inv, Seen;
    if Finish(s, s') {
      FinishShows(s, s');
    } else {
      NextKeepsSnapshots(s, s', s.lastSequence);
      OnlyFinishPublishes(s, s');
    }
  }

  lemma OnlyFinishPublishes(s: State, s': State)
    requires Next(s, s') && !Finish(s, s')
    ensures s'.lastSequence == s.lastSequence
  {
    hide OpsOf, IsGroup, Finish;
  }

  lemma FinishShows(s: State, s': State)
    requires Inv(s) && Finish(s, s')
    ensures s'.lastSequence == s.lastSequence + |GroupOps(s)|
    ensures Seen(s', s'.lastSequence) == Seen(s, s.lastSequence)
              + if s.phase.stage.Failed? then {} else Stores.BatchEntries(GroupOps(s), s.lastSequence)
  {
    hide Before, History, Seen, Finish, Progress, Durable, OpsOf;
    FinishIsRelease(s, s');
    FinishPast(s, s');
    FinishKeepsInv(s, s');
    NumberedEntries(GroupOps(s), s.lastSequence);
    forall e
      ensures e in Seen(s', s'.lastSequence) <==>
              e in Seen(s, s.lastSequence)
              || (!s.phase.stage.Failed? && e in Stores.BatchEntries(GroupOps(s), s.lastSequence))
    {
      SeenIsHistory(s, e);
      SeenIsHistory(s', e);
    }
  }

  lemma NumberedEntries(ops: seq<Stores.Op>, last: nat)
    ensures forall e :: e in Numbered(ops, last + 1) <==> e in Stores.BatchEntries(ops, last)
  {
    forall e
      ensures e in Numbered(ops, last + 1) <==> e in Stores.BatchEntries(ops, last)
    {
      if e in Numbered(ops, last + 1) {
        var i :| 0 <= i < |ops| && Numbered(ops, last + 1)[i] == e;
        assert e == Stores.OpEntry(ops[i], last + 1 + i);
      }
      if e in Stores.BatchEntries(ops, last) {
        var i :| 0 <= i < |ops| && e == Stores.OpEntry(ops[i], last + 1 + i);
        assert Numbered(ops, last + 1)[i] == e;
      }
    }
  }

  // ---- nobody waits for ever ----

  /** The steps of the writer at the front. */
  ghost predicate LeaderStep(s: State, s': State) {
    || Refuse(s, s') || LeadNull(s, s') || (exists n :: LeadGroup(s, s', n))
    || AppendLog(s, s') || (exists inLog :: AppendFails(s, s', inLog))
    || Sync(s, s') || SyncFails(s, s') || Insert(s, s') || Finish(s, s')
  }

  function StageRank(s: State): nat {
    match s.phase
    case Idle => 4
    case Leading(_, Logging) => 3
    case Leading(_, Syncing) => 2
    case Leading(_, Inserting(_)) => 1
    case Leading(_, Failed(_, _)) => 0
  }

  function OpsLeft(s: State): int
    requires QueueOk(s)
  {
    if InStage(s) && s.phase.stage.Inserting? then |GroupOps(s)| - s.phase.stage.inserted else 0
  }

  /** While anyone is queued, the front writer can move. */
  lemma FrontCanMove(s: State)
    requires Inv(s) && s.queue != []
    ensures exists s' :: LeaderStep(s, s')
  {
    hide Before, History, LogEntries, OpsOf, Holds, Joins, Numbered, Durable, GroupOps, Release, LastIsGroup;
    if s.phase.Idle? {
      var s' := Release(s, 1, Refused);
      assert LeaderStep(s, s');
    } else {
      match s.phase.stage
      case Logging =>
        var s' := AtStage(s, Failed(false, false));
        assert AppendFails(s, s', false);
        assert LeaderStep(s, s');
      case Syncing =>
        var s' := AtStage(s, Failed(true, true));
        assert LeaderStep(s, s');
      case Inserting(k) =>
        InsertOrFinish(s);
        var s' :| Insert(s, s') || Finish(s, s');
        assert LeaderStep(s, s');
      case Failed(syncError, inLog) =>
        var t := s.(lastSequence := s.lastSequence + |GroupOps(s)|, error := s.error || syncError);
        var s' := Release(t, s.phase.members, Lost(inLog));
        assert LeaderStep(s, s');
    }
  }

  lemma InsertOrFinish(s: State)
    requires InStage(s) && s.phase.stage.Inserting? && s.phase.stage.inserted <= |GroupOps(s)|
    ensures exists s' :: Insert(s, s') || Finish(s, s')
  {
    hide OpsOf;
    var k := s.phase.stage.inserted;
    if k < |GroupOps(s)| {
      var e := Stores.OpEntry(GroupOps(s)[k], s.lastSequence + 1 + k);
      assert Insert(s, AtStage(s.(entries := s.entries + [e]), Inserting(k + 1)));
    } else {
      var t := s.(lastSequence := s.lastSequence + |GroupOps(s)|, error := s.error);
      assert Finish(s, Release(t, s.phase.members, Applied));
    }
  }

  /** Each such step brings the release of the front writer nearer, so the queue drains if nobody else comes. */
  lemma FrontComesNearer(s: State, s': State)
    requires Inv(s) && LeaderStep(s, s')
    ensures QueueOk(s')
    ensures || |s'.queue| < |s.queue|
            || (|s'.queue| == |s.queue| && StageRank(s') < StageRank(s))
            || (|s'.queue| == |s.queue| && StageRank(s') == StageRank(s) && 0 <= OpsLeft(s') < OpsLeft(s))
  {
    hide Before, History, LogEntries, OpsOf, Holds, Joins, Numbered, Durable, Progress, IsGroup, Together, Release;
    if Refuse(s, s') || LeadNull(s, s') {
      ReleaseQueue(s, 1, Refused);
      ReleaseQueue(s, 1, Applied);
    } else if Finish(s, s') {
      FinishNearer(s, s');
    }
  }

  lemma FinishNearer(s: State, s': State)
    requires Inv(s) && Finish(s, s')
    ensures QueueOk(s') && |s'.queue| < |s.queue|
  {
    hide Before, History, LogEntries, OpsOf, Holds, Numbered, Durable, Finish, Release;
    FinishIsRelease(s, s');
    ReleaseQueue(s, s.phase.members, Verdict(s.phase.stage));
  }

  // ---- without failures the front writer succeeds ----

  /** A step of the front writer in which nothing fails. */
  ghost predicate GoodStep(s: State, s': State) {
    || LeadNull(s, s') || (exists n :: LeadGroup(s, s', n))
    || AppendLog(s, s') || Sync(s, s') || Insert(s, s') || Finish(s, s')
  }

  lemma GroupExists(ws: seq<Request>) returns (n: nat)
    requires ws != [] && ws[0].batch.Some?
    ensures IsGroup(ws, n)
  {
    n := 1;
    while n < |ws| && Joins(ws, n)
      invariant Together(ws, n)
    {
      n := n + 1;
    }
  }

  /** As long as there is no error and nothing has failed, the front writer has a step in which nothing fails; so by
      FrontComesNearer it can always bring its group to the end, and every writer of it returns Applied. */
  lemma FrontCanSucceed(s: State)
    requires Inv(s) && s.queue != [] && !s.error && !(s.phase.Leading? && s.phase.stage.Failed?)
    ensures exists s' :: GoodStep(s, s')
  {
    hide Before, History, LogEntries, OpsOf, Holds, Numbered, Durable, Release, IsGroup, GroupOps;
    if s.phase.Idle? {
      if Waiting(s)[0].batch.None? {
        var s' := Release(s, 1, Applied);
        assert LeadNull(s, s');
        assert GoodStep(s, s');
      } else {
        var n := GroupExists(Waiting(s));
        var s' := s.(phase := Leading(n, Logging));
        assert LeadGroup(s, s', n);
        assert GoodStep(s, s');
      }
    } else {
      match s.phase.stage
      case Logging =>
        var s' := AtStage(s.(log := s.log + [Record(s.lastSequence + 1, GroupOps(s), false)]),
                          if Waiting(s)[0].sync then Syncing else Inserting(0));
        assert AppendLog(s, s');
        assert GoodStep(s, s');
      case Syncing =>
        var last := s.log[|s.log| - 1].(synced := true);
        var s' := AtStage(s.(log := s.log[..|s.log| - 1] + [last]), Inserting(0));
        assert Sync(s, s');
        assert GoodStep(s, s');
      case Inserting(k) =>
        InsertOrFinish(s);
        var s' :| Insert(s, s') || Finish(s, s');
        assert GoodStep(s, s');
    }
  }

  lemma GoodStepStaysGood(s: State, s': State)
    requires Inv(s) && GoodStep(s, s') && !s.error && !(s.phase.Leading? && s.phase.stage.Failed?)
    ensures !s'.error && !(s'.phase.Leading? && s'.phase.stage.Failed?)
    ensures forall id :: id in s'.returned && id !in s.returned ==> s'.returned[id] == Applied
  {
    hide Inv, GroupOps, IsGroup, Waiting;
  }

  lemma GoodStepMoves(s: State, s': State)
    requires Inv(s) && GoodStep(s, s') && s.queue != []
    ensures Next(s, s') && LeaderStep(s, s') && (s'.queue == s.queue || |s'.queue| < |s.queue|)
  {
    hide GroupOps, IsGroup, Waiting;
  }

  /** Hence there is a way on from any such state on which the front writer returns Applied. */
  lemma FrontSucceeds(s: State) returns (run: seq<State>)
    requires Inv(s) && s.queue != [] && !s.error && !(s.phase.Leading? && s.phase.stage.Failed?)
    ensures |run| > 0 && run[0] == s && forall i :: 0 <= i < |run| - 1 ==> Next(run[i], run[i + 1])
    ensures var last := run[|run| - 1];
            s.queue[0] in last.returned && last.returned[s.queue[0]] == Applied
    decreases StageRank(s), OpsLeft(s)
  {
    hide LeadNull, LeadGroup, AppendLog, Sync, Insert, Finish, GoodStep, Next, LeaderStep, Progress, Durable, Before,
         IsGroup, GroupOps, Waiting;
    FrontCanSucceed(s);
    var s' :| GoodStep(s, s');
    GoodStepMoves(s, s');
    GoodStepStaysGood(s, s');
    FrontComesNearer(s, s');
    NextKeepsInv(s, s');
    if |s'.queue| < |s.queue| {
      assert Gone(s) < Gone(s') by {
        ArrivedStays(s, s');
      }
      run := [s, s'];
    } else {
      var rest := FrontSucceeds(s');
      run := [s] + rest;
      assert forall i :: 0 < i < |run| - 1 ==> run[i] == rest[i - 1] && run[i + 1] == rest[i];
    }
  }

  lemma ArrivedStays(s: State, s': State)
    requires Inv(s) && GoodStep(s, s')
    ensures s'.arrived == s.arrived
  {
    hide Inv, GroupOps, IsGroup, Waiting;
  }

  // ---- after an error ----

  /** No write that is not on its way already will be applied. */
  predicate Doomed(s: State) {
    || (s.phase.Leading? && s.phase.stage.Failed? && (s.error || s.phase.stage.syncError))
    || (s.phase.Idle? && s.error)
  }

  lemma DoomedStep(s: State, s': State)
    requires Next(s, s') && Doomed(s)
    ensures Doomed(s')
    ensures forall id :: id in s'.returned && (id !in s.returned || s'.returned[id] != s.returned[id]) ==>
              s'.returned[id] != Applied
  {
    hide GroupOps, IsGroup;
  }

  lemma {:induction false} DoomedRun(run: seq<State>, i: nat, j: nat)
    requires Run(run) && i <= j < |run| && Doomed(run[i])
    ensures Doomed(run[j])
    ensures forall id :: id in run[j].returned && id !in run[i].returned ==> run[j].returned[id] != Applied
  {
    hide Next, Doomed;
    if i < j {
      DoomedRun(run, i, j - 1);
      assert Next(run[j - 1], run[j - 1 + 1]);
      DoomedStep(run[j - 1], run[j]);
    }
  }

  /** After a failed log sync the state of the log is unknown: nobody who has not returned yet succeeds any more. */
  lemma NothingAppliedAfterFailedSync(run: seq<State>, i: nat, j: nat, id: nat)
    requires Run(run) && i <= j < |run|
    requires run[i].phase.Leading? && run[i].phase.stage.Failed? && run[i].phase.stage.syncError
    requires id in run[j].returned && id !in run[i].returned
    ensures run[j].returned[id] != Applied
  {
    hide Next;
    DoomedRun(run, i, j);
  }

  /** Nor after a background error, once the group that was on its way has returned. */
  lemma NothingAppliedAfterError(run: seq<State>, i: nat, j: nat, id: nat)
    requires Run(run) && i <= j < |run| && run[i].error && run[i].phase.Idle?
    requires id in run[j].returned && id !in run[i].returned
    ensures run[j].returned[id] != Applied
  {
    hide Next;
    DoomedRun(run, i, j);
  }

  predicate Troubled(s: State) {
    s.error || (s.phase.Leading? && s.phase.stage.Failed? && s.phase.stage.syncError)
  }

  predicate Fails(s: State, s': State) {
    BackgroundError(s, s') || SyncFails(s, s')
  }

  lemma TroubleHasCause(s: State, s': State)
    requires Next(s, s') && Troubled(s')
    ensures Troubled(s) || Fails(s, s')
  {
    hide GroupOps, IsGroup;
  }

  /** The error comes from a background error or a failed sync, never from a failed append. */
  lemma {:induction false} ErrorHasCause(run: seq<State>, j: nat) returns (i: nat)
    requires Run(run) && j < |run| && Troubled(run[j])
    ensures i < j && Fails(run[i], run[i + 1])
  {
    hide Next, Fails;
    assert j > 0;
    assert Next(run[j - 1], run[j - 1 + 1]);
    TroubleHasCause(run[j - 1], run[j]);
    if Fails(run[j - 1], run[j]) {
      i := j - 1;
    } else {
      i := ErrorHasCause(run, j - 1);
    }
  }

  // ---- which records are synced ----

  /** A log is synced only for a leader that asks for it. */
  predicate SyncsOnRequest(s: State) {
    s.phase.Leading? && s.phase.stage.Syncing? ==> QueueOk(s) && s.queue != [] && Waiting(s)[0].sync
  }

  /** A step marks the last record synced and no other, and only if it is the sync of a leader that asks for it. */
  lemma SyncStep(s: State, s': State, k: nat)
    requires Next(s, s') && SyncsOnRequest(s)
    ensures SyncsOnRequest(s')
    ensures k < |s'.log| && s'.log[k].synced && !(k < |s.log| && s.log[k].synced) ==>
              Sync(s, s') && k == |s.log| - 1 && s.queue != [] && Waiting(s)[0].sync
  {
    hide Arrive, Refuse, LeadNull, LeadGroup, AppendLog, AppendFails, Sync, SyncFails, Insert, Finish, BackgroundError,
      SyncsOnRequest;
    if w :| Arrive(s, s', w) {
      ArriveSyncsNothing(s, s', w);
    } else if AppendLog(s, s') || exists inLog :: AppendFails(s, s', inLog) {
      AppendSyncsNothing(s, s');
    } else if Sync(s, s') {
      SyncSyncsLast(s, s', k);
    } else {
      OthersSyncNothing(s, s');
    }
  }

  lemma ArriveSyncsNothing(s: State, s': State, w: Request)
    requires Arrive(s, s', w) && SyncsOnRequest(s)
    ensures SyncsOnRequest(s') && s'.log == s.log
  {
  }

  lemma AppendSyncsNothing(s: State, s': State)
    requires AppendLog(s, s') || exists inLog :: AppendFails(s, s', inLog)
    ensures SyncsOnRequest(s') && (s'.log == s.log || (|s'.log| == |s.log| + 1 && s'.log[..|s.log|] == s.log))
    ensures |s'.log| > |s.log| ==> !s'.log[|s.log|].synced
  {
    hide GroupOps;
  }

  lemma SyncSyncsLast(s: State, s': State, k: nat)
    requires Sync(s, s') && SyncsOnRequest(s)
    ensures SyncsOnRequest(s') && QueueOk(s) && s.queue != [] && Waiting(s)[0].sync
    ensures k < |s'.log| && s'.log[k].synced && !(k < |s.log| && s.log[k].synced) ==> k == |s.log| - 1
  {
    hide GroupOps;
  }

  lemma OthersSyncNothing(s: State, s': State)
    requires || Refuse(s, s') || LeadNull(s, s') || (exists n :: LeadGroup(s, s', n))
             || SyncFails(s, s') || Insert(s, s') || Finish(s, s') || BackgroundError(s, s')
    requires SyncsOnRequest(s)
    ensures SyncsOnRequest(s') && s'.log == s.log
  {
    hide GroupOps, IsGroup;
  }

  /** Every synced record was the last one when a leader that asks for it synced the log, and had not been synced
      before. */
  lemma {:induction false} SyncedOnRequest(run: seq<State>, j: nat, k: nat) returns (i: nat)
    requires Run(run) && j < |run| && k < |run[j].log| && run[j].log[k].synced
    ensures i < j && Sync(run[i], run[i + 1]) && k == |run[i].log| - 1
    ensures run[i].queue != [] && Waiting(run[i])[0].sync
  {
    hide Next, Sync;
    assert j > 0;
    assert Next(run[j - 1], run[j - 1 + 1]);
    RunSyncsOnRequest(run, j - 1);
    SyncStep(run[j - 1], run[j], k);
    if k < |run[j - 1].log| && run[j - 1].log[k].synced {
      i := SyncedOnRequest(run, j - 1, k);
    } else {
      i := j - 1;
      assert QueueOk(run[i]) by {
        SyncInStage(run[i], run[j]);
      }
    }
  }

  lemma SyncInStage(s: State, s': State)
    requires Sync(s, s')
    ensures QueueOk(s)
  {
  }

  lemma {:induction false} RunSyncsOnRequest(run: seq<State>, j: nat)
    requires Run(run) && j < |run|
    ensures SyncsOnRequest(run[j])
  {
    hide Next;
    if j > 0 {
      RunSyncsOnRequest(run, j - 1);
      assert Next(run[j - 1], run[j - 1 + 1]);
      SyncStep(run[j - 1], run[j], 0);
    }
  }
}
