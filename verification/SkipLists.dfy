/** The skip list: sorted linked levels that one writer extends pointer by pointer while readers search. */
module SkipLists {
  const MAX_HEIGHT: nat := 12

  /** Nodes are numbered in the order of allocation; node 0 is the head, and as a pointer 0 is null. A key is its place
      in the comparator's order. */
  datatype Heap = Heap(keys: seq<int>, next: seq<seq<nat>>, height: nat)

  /** A heap and, for every level, the nodes linked there. */
  datatype State = State(heap: Heap, lists: seq<seq<nat>>)

  // ---- sorted linked levels ----

  function Prev(list: seq<nat>, j: nat): nat
    requires j <= |list|
  {
    if j == 0 then 0 else list[j - 1]
  }

  function At(list: seq<nat>, j: nat): nat
    requires j <= |list|
  {
    if j == |list| then 0 else list[j]
  }

  predicate IsNode(h: Heap, n: nat, level: nat) {
    n < |h.next| == |h.keys| && level < |h.next[n]|
  }

  /** The pointers of a level visit the list, whose keys ascend. */
  predicate Linked(h: Heap, level: nat, list: seq<nat>) {
    && IsNode(h, 0, level)
    && (forall i :: 0 <= i < |list| ==> list[i] != 0 && IsNode(h, list[i], level))
    && (forall j :: 0 <= j <= |list| ==> h.next[Prev(list, j)][level] == At(list, j))
    && (forall i, j :: 0 <= i < j < |list| ==> h.keys[list[i]] < h.keys[list[j]])
  }

  predicate Part(upper: seq<nat>, lower: seq<nat>) {
    forall n :: n in upper ==> n in lower
  }

  /** Every level is linked and sorted, and holds only nodes of the levels below. */
  predicate Ok(s: State) {
    && |s.lists| == MAX_HEIGHT && 1 <= s.heap.height <= MAX_HEIGHT
    && (forall l :: 0 <= l < MAX_HEIGHT ==> Linked(s.heap, l, s.lists[l]))
    && (forall k, l :: 0 <= k < l < MAX_HEIGHT ==> Part(s.lists[l], s.lists[k]))
    && (forall l :: s.heap.height <= l < MAX_HEIGHT ==> s.lists[l] == [])
  }

  /** The number of nodes of a level with keys before the given one. */
  function Rank(h: Heap, list: seq<nat>, key: int): (r: nat)
    requires forall i :: 0 <= i < |list| ==> list[i] < |h.keys|
    ensures r <= |list|
  {
    if list == [] then 0
    else if h.keys[list[0]] < key then 1 + Rank(h, list[1..], key)
    else 0
  }

  lemma {:induction false} RankSplits(h: Heap, level: nat, list: seq<nat>, key: int)
    requires Linked(h, level, list)
    ensures forall i :: 0 <= i < |list| ==> (i < Rank(h, list, key) <==> h.keys[list[i]] < key)
  {
    RankSplitsSorted(h, list, key);
  }

  lemma {:induction false} RankSplitsSorted(h: Heap, list: seq<nat>, key: int)
    requires forall i :: 0 <= i < |list| ==> list[i] < |h.keys|
    requires forall i, j :: 0 <= i < j < |list| ==> h.keys[list[i]] < h.keys[list[j]]
    ensures forall i :: 0 <= i < |list| ==> (i < Rank(h, list, key) <==> h.keys[list[i]] < key)
  {
    if list != [] && h.keys[list[0]] < key {
      RankSplitsSorted(h, list[1..], key);
      forall i | 0 < i < |list|
        ensures i < Rank(h, list, key) <==> h.keys[list[i]] < key
      {
        assert list[1..][i - 1] == list[i];
      }
    }
  }

  // ---- the writer's steps ----

  function Nulls(n: nat): (r: seq<nat>)
    ensures |r| == n
  {
    seq(n, _ => 0)
  }

  predicate NewNode(s: State, s': State, key: int, height: nat) {
    && 1 <= height <= MAX_HEIGHT
    && s' == s.(heap := s.heap.(keys := s.heap.keys + [key], next := s.heap.next + [Nulls(height)]))
  }

  predicate Raise(s: State, s': State, height: nat) {
    s.heap.height < height <= MAX_HEIGHT && s' == s.(heap := s.heap.(height := height))
  }

  function Store(h: Heap, n: nat, level: nat, target: nat): Heap
    requires IsNode(h, n, level)
  {
    var row: seq<nat> := h.next[n][level := target];
    h.(next := h.next[n := row])
  }

  /** A node no level-l pointer leads to may be pointed anywhere. */
  predicate Prepare(s: State, s': State, x: nat, level: nat, target: nat) {
    && level < |s.lists| && x != 0 && IsNode(s.heap, x, level) && x !in s.lists[level]
    && s' == s.(heap := Store(s.heap, x, level, target))
  }

  /** One pointer store links x into a level behind its first r nodes; x must be in the level below already. */
  predicate Publish(s: State, s': State, x: nat, level: nat, r: nat) {
    && level < |s.lists| && level < s.heap.height && r <= |s.lists[level]|
    && x != 0 && IsNode(s.heap, x, level) && IsNode(s.heap, Prev(s.lists[level], r), level)
    && (level > 0 ==> x in s.lists[level - 1])
    && s.heap.next[x][level] == s.heap.next[Prev(s.lists[level], r)][level]
    && (forall i :: 0 <= i < |s.lists[level]| ==> s.lists[level][i] < |s.heap.keys|)
    && (forall i :: 0 <= i < r ==> s.heap.keys[s.lists[level][i]] < s.heap.keys[x])
    && (forall i :: r <= i < |s.lists[level]| ==> s.heap.keys[x] < s.heap.keys[s.lists[level][i]])
    && s' == State(Store(s.heap, Prev(s.lists[level], r), level, x),
                   s.lists[level := Inserted(s.lists[level], r, x)])
  }

  function Inserted(list: seq<nat>, r: nat, x: nat): seq<nat>
    requires r <= |list|
  {
    list[..r] + [x] + list[r..]
  }

  ghost predicate WriterStep(s: State, s': State) {
    || (exists key, height :: NewNode(s, s', key, height))
    || (exists height :: Raise(s, s', height))
    || (exists x, level, target :: Prepare(s, s', x, level, target))
    || (exists x, level, r :: Publish(s, s', x, level, r))
  }

  /** Nodes keep their keys and stay on their levels. */
  predicate Extends(s: State, s': State) {
    && |s.lists| == |s'.lists| && s.heap.keys <= s'.heap.keys
    && forall l, n :: 0 <= l < |s.lists| && n in s.lists[l] ==> n in s'.lists[l]
  }

  lemma LinkedKept(h: Heap, h': Heap, level: nat, list: seq<nat>)
    requires Linked(h, level, list) && h.keys <= h'.keys && |h'.keys| == |h'.next|
    requires forall n :: n == 0 || n in list ==> IsNode(h', n, level) && h'.next[n][level] == h.next[n][level]
    ensures Linked(h', level, list)
  {
    forall j | 0 <= j <= |list|
      ensures h'.next[Prev(list, j)][level] == At(list, j)
    {
      assert Prev(list, j) == 0 || Prev(list, j) in list;
    }
  }

  lemma PublishLinks(s: State, s': State, x: nat, level: nat, r: nat)
    requires Ok(s) && Publish(s, s', x, level, r)
    ensures Linked(s'.heap, level, s'.lists[level])
  {
    var list, list' := s.lists[level], s'.lists[level];
    InsertedMembers(list, r, x);
    forall j | 0 <= j <= |list'|
      ensures s'.heap.next[Prev(list', j)][level] == At(list', j)
    {
      PublishPointer(s, s', x, level, r, j);
    }
    InsertedAscends(s.heap.keys, list, r, x);
  }

  lemma InsertedAscends(keys: seq<int>, list: seq<nat>, r: nat, x: nat)
    requires r <= |list| && x < |keys| && forall i :: 0 <= i < |list| ==> list[i] < |keys|
    requires forall i, j :: 0 <= i < j < |list| ==> keys[list[i]] < keys[list[j]]
    requires forall i :: 0 <= i < |list| ==> if i < r then keys[list[i]] < keys[x] else keys[x] < keys[list[i]]
    ensures forall i :: 0 <= i < |list| + 1 ==> Inserted(list, r, x)[i] < |keys|
    ensures forall i, j :: 0 <= i < j < |list| + 1 ==> keys[Inserted(list, r, x)[i]] < keys[Inserted(list, r, x)[j]]
  {
  }

  /** Where the pointers around an insertion lead. */
  lemma InsertedNeighbours(list: seq<nat>, r: nat, x: nat, j: nat)
    requires r <= |list| && j <= |list| + 1
    ensures |Inserted(list, r, x)| == |list| + 1
    ensures j < r ==> Prev(Inserted(list, r, x), j) == Prev(list, j) && At(Inserted(list, r, x), j) == At(list, j)
    ensures j == r ==> Prev(Inserted(list, r, x), j) == Prev(list, r) && At(Inserted(list, r, x), j) == x
    ensures j == r + 1 ==> Prev(Inserted(list, r, x), j) == x && At(Inserted(list, r, x), j) == At(list, r)
    ensures j > r + 1 ==>
              Prev(Inserted(list, r, x), j) == Prev(list, j - 1) && At(Inserted(list, r, x), j) == At(list, j - 1)
  {
  }

  /** In a sorted level no two places have the same predecessor, and x is none of them. */
  lemma PrevDiffers(h: Heap, level: nat, list: seq<nat>, i: nat, j: nat)
    requires Linked(h, level, list) && i <= |list| && j <= |list| && i != j
    ensures Prev(list, i) != Prev(list, j)
  {
  }

  lemma PublishPointer(s: State, s': State, x: nat, level: nat, r: nat, j: nat)
    requires Ok(s) && Publish(s, s', x, level, r) && j <= |s'.lists[level]|
    ensures IsNode(s'.heap, Prev(s'.lists[level], j), level)
    ensures s'.heap.next[Prev(s'.lists[level], j)][level] == At(s'.lists[level], j)
  {
    var list := s.lists[level];
    assert Linked(s.heap, level, list);
    InsertedNeighbours(list, r, x, j);
    assert Prev(list, r) != x by {
      assert r > 0 ==> s.heap.keys[list[r - 1]] < s.heap.keys[x];
    }
    var i := if j <= r then j else j - 1;
    if i != r {
      PrevDiffers(s.heap, level, list, i, r);
      assert s.heap.next[Prev(list, i)][level] == At(list, i);
    } else {
      assert s.heap.next[Prev(list, r)][level] == At(list, r);
    }
  }

  /** After every single step of the writer each level is sorted and part of the level below. */
  lemma StepKeepsOk(s: State, s': State)
    requires Ok(s) && WriterStep(s, s')
    ensures Ok(s') && Extends(s, s')
  {
    if x, level, r :| Publish(s, s', x, level, r) {
      PublishKeepsOk(s, s', x, level, r);
    } else {
      hide Linked, Publish;
      assert s'.lists == s.lists;
      forall l | 0 <= l < MAX_HEIGHT
        ensures Linked(s'.heap, l, s'.lists[l])
      {
        OtherStepLinked(s, s', l);
      }
    }
  }

  lemma OtherStepLinked(s: State, s': State, l: nat)
    requires Ok(s) && l < MAX_HEIGHT
    requires || (exists key, height :: NewNode(s, s', key, height))
             || (exists height :: Raise(s, s', height))
             || (exists x, level, target :: Prepare(s, s', x, level, target))
    ensures Linked(s'.heap, l, s'.lists[l])
  {
    LinkedKept(s.heap, s'.heap, l, s.lists[l]);
  }

  lemma PublishKeepsOk(s: State, s': State, x: nat, level: nat, r: nat)
    requires Ok(s) && Publish(s, s', x, level, r)
    ensures Ok(s') && Extends(s, s')
  {
    hide Linked;
    PublishLinks(s, s', x, level, r);
    forall l | 0 <= l < MAX_HEIGHT && l != level
      ensures Linked(s'.heap, l, s'.lists[l])
    {
      OtherLevel(s, s', x, level, r, l);
    }
    InsertedMembers(s.lists[level], r, x);
  }

  lemma InsertedMembers(list: seq<nat>, r: nat, x: nat)
    requires r <= |list|
    ensures forall n :: n in Inserted(list, r, x) <==> n in list || n == x
  {
    assert list == list[..r] + list[r..];
  }

  lemma OtherLevel(s: State, s': State, x: nat, level: nat, r: nat, l: nat)
    requires Ok(s) && Publish(s, s', x, level, r) && l < MAX_HEIGHT && l != level
    ensures Linked(s'.heap, l, s'.lists[l])
  {
    LinkedKept(s.heap, s'.heap, l, s.lists[l]);
  }

  // ---- a search among the writer's steps ----

  datatype Reader = Searching(x: nat, level: nat) | Found(node: nat)

  /** KeyIsAfterNode: null is considered infinite. */
  predicate IsAfter(h: Heap, key: int, n: nat) {
    n != 0 && n < |h.keys| && h.keys[n] < key
  }

  /** One turn of the loop of FindGreaterOrEqual. */
  predicate ReaderStep(h: Heap, key: int, r: Reader, r': Reader) {
    && r.Searching? && IsNode(h, r.x, r.level)
    && var next := h.next[r.x][r.level];
       r' == if IsAfter(h, key, next) then Searching(next, r.level)
             else if r.level == 0 then Found(next)
             else Searching(r.x, r.level - 1)
  }

  datatype Moment = Moment(s: State, r: Reader)

  /** A search from the head, its turns mixed in any way with the steps of an insertion. */
  ghost predicate MixedRun(run: seq<Moment>, key: int) {
    && |run| > 0 && Ok(run[0].s) && run[0].r == Searching(0, run[0].s.heap.height - 1)
    && forall i :: 0 <= i < |run| - 1 ==>
         || (WriterStep(run[i].s, run[i + 1].s) && run[i + 1].r == run[i].r)
         || (run[i + 1].s == run[i].s && ReaderStep(run[i].s.heap, key, run[i].r, run[i + 1].r))
  }

  /** The search is on a node of its level before the key, or has found a node at or after the key that passes over
      nothing that was there at the start. */
  predicate OnTrack(start: State, s: State, key: int, r: Reader) {
    && Ok(start) && Ok(s) && Extends(start, s)
    && match r
       case Searching(x, level) => level < MAX_HEIGHT && (x != 0 ==> x in s.lists[level] && s.heap.keys[x] < key)
       case Found(n) =>
         && (n != 0 ==> n in s.lists[0] && s.heap.keys[n] >= key)
         && forall i :: 0 <= i < |start.lists[0]| && start.heap.keys[start.lists[0][i]] >= key ==>
              n != 0 && s.heap.keys[n] <= start.heap.keys[start.lists[0][i]]
  }

  lemma WriterKeepsTrack(start: State, s: State, s': State, key: int, r: Reader)
    requires OnTrack(start, s, key, r) && WriterStep(s, s')
    ensures OnTrack(start, s', key, r)
  {
    hide WriterStep;
    StepKeepsOk(s, s');
  }

  lemma ReaderKeepsTrack(start: State, s: State, key: int, r: Reader, r': Reader)
    requires OnTrack(start, s, key, r) && ReaderStep(s.heap, key, r, r')
    ensures OnTrack(start, s, key, r')
  {
    var list := s.lists[r.level];
    assert Linked(s.heap, r.level, list);
    var i := Place(s, r.x, r.level);
    var next := s.heap.next[r.x][r.level];
    assert next == At(list, i);
    assert next != 0 ==> next in list;
    if !IsAfter(s.heap, key, next) {
      if r.level == 0 {
        forall k | 0 <= k < |start.lists[0]| && start.heap.keys[start.lists[0][k]] >= key
          ensures next != 0 && s.heap.keys[next] <= start.heap.keys[start.lists[0][k]]
        {
          assert start.lists[0][k] in start.lists[0];
          var j :| 0 <= j < |list| && list[j] == start.lists[0][k];
          assert i <= j;
        }
      } else {
        assert Part(list, s.lists[r.level - 1]);
      }
    }
  }

  /** The place behind a node in its level, or behind the head. */
  lemma Place(s: State, x: nat, level: nat) returns (i: nat)
    requires Ok(s) && level < MAX_HEIGHT && (x != 0 ==> x in s.lists[level])
    ensures i <= |s.lists[level]| && Prev(s.lists[level], i) == x
  {
    if x == 0 {
      i := 0;
    } else {
      var j :| 0 <= j < |s.lists[level]| && s.lists[level][j] == x;
      i := j + 1;
    }
  }

  lemma {:induction false} MixedRunOnTrack(run: seq<Moment>, key: int, i: nat)
    requires MixedRun(run, key) && i < |run|
    ensures OnTrack(run[0].s, run[i].s, key, run[i].r)
  {
    hide WriterStep, ReaderStep, Ok;
    if i == 0 {
      assert run[0].s.heap.height <= MAX_HEIGHT by {
        HeightOk(run[0].s);
      }
    } else {
      MixedRunOnTrack(run, key, i - 1);
      if WriterStep(run[i - 1].s, run[i - 1 + 1].s) && run[i].r == run[i - 1].r {
        WriterKeepsTrack(run[0].s, run[i - 1].s, run[i].s, key, run[i].r);
      } else {
        ReaderKeepsTrack(run[0].s, run[i].s, key, run[i - 1].r, run[i].r);
      }
    }
  }

  lemma HeightOk(s: State)
    requires Ok(s)
    ensures s.heap.height <= MAX_HEIGHT
  {
  }

  /** A search that runs while keys are inserted finds the first key at or after its target or an earlier one inserted
      meanwhile, and so finds every key that was there when it began. */
  lemma SearchMissesNothing(run: seq<Moment>, key: int, m: nat)
    requires MixedRun(run, key) && run[|run| - 1].r.Found?
    requires |run[0].s.lists| == MAX_HEIGHT && m in run[0].s.lists[0] && m < |run[0].s.heap.keys|
    requires key <= run[0].s.heap.keys[m]
    ensures var end := run[|run| - 1];
            && end.r.node != 0 && end.r.node < |end.s.heap.keys|
            && key <= end.s.heap.keys[end.r.node] <= run[0].s.heap.keys[m]
  {
    MixedRunOnTrack(run, key, |run| - 1);
    var i :| 0 <= i < |run[0].s.lists[0]| && run[0].s.lists[0][i] == m;
  }

  // ---- the list itself ----

  /** The steps between the states of a trace are the writer's. */
  ghost predicate Trace(states: seq<State>) {
    forall i :: 0 <= i < |states| - 1 ==> WriterStep(states[i], states[i + 1])
  }

  /** The keys in order. */
  function KeysOf(s: State): (r: seq<int>)
    requires Ok(s)
    ensures |r| == |s.lists[0]|
  {
    assert Linked(s.heap, 0, s.lists[0]);
    seq(|s.lists[0]|, i requires 0 <= i < |s.lists[0]| => s.heap.keys[s.lists[0][i]])
  }

  /** How many nodes of a level come before the key. */
  function RankIn(s: State, level: nat, key: int): (r: nat)
    requires Ok(s) && level < MAX_HEIGHT
    ensures r <= |s.lists[level]|
    ensures forall i :: 0 <= i < |s.lists[level]| ==>
              s.lists[level][i] < |s.heap.keys| && (i < r <==> s.heap.keys[s.lists[level][i]] < key)
  {
    assert Linked(s.heap, level, s.lists[level]);
    RankSplits(s.heap, level, s.lists[level], key);
    Rank(s.heap, s.lists[level], key)
  }

  /** The place behind x, on this level or, x being the last node before the key there, on the one below. */
  lemma GoDown(s: State, x: nat, level: nat, key: int) returns (i: nat)
    requires Ok(s) && 0 < level < MAX_HEIGHT && x == Prev(s.lists[level], RankIn(s, level, key))
    ensures i <= RankIn(s, level - 1, key) && x == Prev(s.lists[level - 1], i)
  {
    hide Linked;
    var r := RankIn(s, level, key);
    if x == 0 {
      i := 0;
    } else {
      assert s.lists[level][r - 1] == x;
      assert Part(s.lists[level], s.lists[level - 1]);
      i := Place(s, x, level - 1);
      assert s.lists[level - 1][i - 1] == x;
    }
  }

  /** Where the pointer behind the first i nodes of a level leads. */
  lemma Follow(s: State, level: nat, i: nat)
    requires Ok(s) && level < MAX_HEIGHT && i <= |s.lists[level]|
    ensures IsNode(s.heap, Prev(s.lists[level], i), level)
    ensures s.heap.next[Prev(s.lists[level], i)][level] == At(s.lists[level], i)
    ensures i < |s.lists[level]| ==> s.lists[level][i] != 0 && s.lists[level][i] < |s.heap.keys|
  {
    assert Linked(s.heap, level, s.lists[level]);
  }

  class SkipList {
    var keys: seq<int>
    var next: seq<seq<nat>>
    var maxHeight: nat
    ghost var lists: seq<seq<nat>>
    /** Every state a concurrent reader may have met, up to the present one. */
    ghost var trace: seq<State>

    ghost function Now(): State
      reads this
    {
      State(Heap(keys, next, maxHeight), lists)
    }

    ghost predicate Valid()
      reads this
    {
      Ok(Now()) && Trace(trace) && trace != [] && trace[|trace| - 1] == Now()
    }

    ghost function Contents(): seq<int>
      requires Valid()
      reads this
    {
      KeysOf(Now())
    }

    constructor ()
      ensures Valid() && Contents() == []
    {
      keys := [0];
      next := [Nulls(MAX_HEIGHT)];
      maxHeight := 1;
      lists := seq(MAX_HEIGHT, _ => []);
      new;
      trace := [Now()];
    }
  
    /** The first node at or after the key, and on every level in use the last node before it. */
    method FindGreaterOrEqual(key: int) returns (node: nat, prev: seq<nat>)
      requires Valid()
      ensures node == At(lists[0], RankIn(Now(), 0, key)) && |prev| == MAX_HEIGHT
      ensures forall l :: 0 <= l < maxHeight ==> prev[l] == Prev(lists[l], RankIn(Now(), l, key))
    {
      hide Ok, Rank, Linked;
      HeightFits(Now());
      prev := Nulls(MAX_HEIGHT);
      var x, level := 0, maxHeight - 1;
      ghost var i: nat := 0;
      while true
        invariant 0 <= level < maxHeight <= MAX_HEIGHT == |prev| == |lists|
        invariant i <= RankIn(Now(), level, key) && x == Prev(lists[level], i)
        invariant forall l :: level < l < maxHeight ==> prev[l] == Prev(lists[l], RankIn(Now(), l, key))
        decreases level, |lists[level]| - i
      {
        Follow(Now(), level, i);
        var after := next[x][level];
        if after != 0 && keys[after] < key {
          x, i := after, i + 1;
        } else {
          prev := prev[level := x];
          if level == 0 {
            return after, prev;
          }
          i := GoDown(Now(), x, level, key);
          level := level - 1;
        }
      }
    }

    /** The last node before the key, or the head. */
    method FindLessThan(key: int) returns (x: nat)
      requires Valid()
      ensures x == Prev(lists[0], RankIn(Now(), 0, key))
    {
      hide Ok, Rank, Linked;
      HeightFits(Now());
      x := 0;
      var level := maxHeight - 1;
      ghost var i: nat := 0;
      while true
        invariant 0 <= level < maxHeight <= MAX_HEIGHT == |lists|
        invariant i <= RankIn(Now(), level, key) && x == Prev(lists[level], i)
        decreases level, |lists[level]| - i
      {
        Follow(Now(), level, i);
        var after := next[x][level];
        if after == 0 || keys[after] >= key {
          if level == 0 {
            return;
          }
          i := GoDown(Now(), x, level, key);
          level := level - 1;
        } else {
          x, i := after, i + 1;
        }
      }
    }

    /** The last node, or the head. */
    method FindLast() returns (x: nat)
      requires Valid()
      ensures x == Prev(lists[0], |lists[0]|)
    {
      hide Ok, Rank, Linked;
      HeightFits(Now());
      x := 0;
      var level := maxHeight - 1;
      ghost var i: nat := 0;
      while true
        invariant 0 <= level < maxHeight <= MAX_HEIGHT == |lists|
        invariant i <= |lists[level]| && x == Prev(lists[level], i)
        decreases level, |lists[level]| - i
      {
        Follow(Now(), level, i);
        var after := next[x][level];
        if after == 0 {
          if level == 0 {
            return;
          }
          i := LastGoesDown(Now(), x, level);
          level := level - 1;
        } else {
          x, i := after, i + 1;
        }
      }
    }

    method Contains(key: int) returns (found: bool)
      requires Valid()
      ensures found <==> key in Contents()
    {
      var x, prev := FindGreaterOrEqual(key);
      FoundAtRank(Now(), key);
      found := x != 0 && keys[x] == key;
    }

    /** Links a new key in, level by level; every state on the way is one more step in the trace. */
    method Insert(key: int, height: nat)
      requires Valid() && key !in Contents() && 1 <= height <= MAX_HEIGHT
      modifies this
      ensures Valid() && old(trace) <= trace
      ensures var r := old(RankIn(Now(), 0, key)); Contents() == old(Contents())[..r] + [key] + old(Contents())[r..]
    {
      hide Ok, WriterStep, Growing, Trace, KeysOf, RankIn;
      var node, prev := FindGreaterOrEqual(key);
      ghost var s0 := Now();
      HeightFits(s0);
      EmptyAbove(s0, key);
      if height > maxHeight {
        for i := maxHeight to height
          invariant |prev| == MAX_HEIGHT
          invariant forall l :: 0 <= l < i ==> prev[l] == Prev(lists[l], RankIn(s0, l, key))
        {
          prev := prev[i := 0];
        }
        RaiseTo(height);
      }
      var x := Allocate(s0, key, height);
      for i := 0 to height
        invariant Growing(s0, Now(), x, key, height, i) && |prev| == MAX_HEIGHT
        invariant forall l :: 0 <= l < height ==> prev[l] == Prev(s0.lists[l], RankIn(s0, l, key))
        invariant Valid() && old(trace) <= trace
      {
        GrowingPlace(s0, Now(), x, key, height, i);
        Link(s0, x, key, height, i, prev[i]);
      }
      Grown(s0, Now(), x, key, height);
    }

    method RaiseTo(height: nat)
      requires Valid() && maxHeight < height <= MAX_HEIGHT
      modifies this`maxHeight, this`trace
      ensures Valid() && old(trace) <= trace
      ensures Now() == old(Now()).(heap := old(Now()).heap.(height := height))
    {
      hide Ok, WriterStep;
      ghost var s := Now();
      maxHeight := height;
      assert Raise(s, Now(), height);
      StepIsWriters(s, Now());
      StepKeepsOk(s, Now());
      trace := trace + [Now()];
    }

    method Allocate(ghost s0: State, key: int, height: nat) returns (x: nat)
      requires Valid() && Ok(s0) && key !in KeysOf(s0) && 1 <= height <= maxHeight
      requires Now() == s0.(heap := s0.heap.(height := maxHeight))
      modifies this`keys, this`next, this`trace
      ensures Valid() && old(trace) <= trace && Growing(s0, Now(), x, key, height, 0)
    {
      hide Ok, WriterStep, Growing, KeysOf;
      ghost var s := Now();
      HeightFits(s);
      x := |keys|;
      keys := keys + [key];
      next := next + [Nulls(height)];
      NewNodeIsStep(s0, s, Now(), key, height);
      StepKeepsOk(s, Now());
      trace := trace + [Now()];
    }

    /** The two pointer stores of one level. */
    method Link(ghost s0: State, x: nat, key: int, height: nat, i: nat, prev: nat)
      requires Valid() && Growing(s0, Now(), x, key, height, i) && i < height && i < |lists| && i < |s0.lists| && Ok(s0)
      requires prev == Prev(lists[i], RankIn(s0, i, key)) && IsNode(Now().heap, x, i) && IsNode(Now().heap, prev, i)
      modifies this`next, this`lists, this`trace
      ensures Valid() && old(trace) <= trace && Growing(s0, Now(), x, key, height, i + 1)
    {
      hide Ok, WriterStep, Growing, KeysOf, RankIn, Inserted, Prev;
      ghost var s := Now();
      var row: seq<nat> := next[x][i := next[prev][i]];
      next := next[x := row];
      PrepareIsStep(s0, s, Now(), x, key, height, i);
      StepKeepsOk(s, Now());
      trace := trace + [Now()];
      ghost var prepared := Now();
      GrowingPlace(s0, prepared, x, key, height, i);
      row := next[prev][i := x];
      next := next[prev := row];
      lists := lists[i := Inserted(lists[i], RankIn(s0, i, key), x)];
      PublishIsStep(s0, prepared, Now(), x, key, height, i);
      StepKeepsOk(prepared, Now());
      trace := trace + [Now()];
    }
  }

  lemma StepIsWriters(s: State, s': State)
    requires exists height :: Raise(s, s', height)
    ensures WriterStep(s, s')
  {
  }

  /** Levels not yet in use are empty, so the head is the last node before any key there. */
  lemma EmptyAbove(s: State, key: int)
    requires Ok(s)
    ensures forall l :: s.heap.height <= l < MAX_HEIGHT ==> Prev(s.lists[l], RankIn(s, l, key)) == 0
  {
  }

  /** The new node is linked into the levels before i, each at its rank, and the other levels are as at the start. */
  predicate Growing(s0: State, s: State, x: nat, key: int, height: nat, i: nat) {
    && Ok(s0) && Ok(s) && i <= height <= s.heap.height && x == |s0.heap.keys| && s.heap.keys == s0.heap.keys + [key]
    && |s.heap.next| == x + 1 && |s.heap.next[x]| == height && |s0.heap.keys| > 0
    && (forall l :: 0 <= l < MAX_HEIGHT ==>
          s.lists[l] == if l < i then Inserted(s0.lists[l], RankIn(s0, l, key), x) else s0.lists[l])
    && key !in KeysOf(s0)
  }

  lemma NewNodeIsStep(s0: State, raised: State, s: State, key: int, height: nat)
    requires Ok(s0) && Ok(raised) && key !in KeysOf(s0) && height <= raised.heap.height
    requires raised == s0.(heap := s0.heap.(height := raised.heap.height)) && NewNode(raised, s, key, height)
    ensures WriterStep(raised, s) && Growing(s0, s, |s0.heap.keys|, key, height, 0)
  {
    assert Linked(s0.heap, 0, s0.lists[0]);
    hide Linked;
    StepKeepsOk(raised, s);
  }

  /** No node has the key, so a level's nodes from the rank on come after it. */
  lemma AfterRank(s: State, level: nat, key: int, j: nat)
    requires Ok(s) && level < MAX_HEIGHT && key !in KeysOf(s) && RankIn(s, level, key) <= j < |s.lists[level]|
    ensures key < s.heap.keys[s.lists[level][j]]
  {
    hide Linked;
    var n := s.lists[level][j];
    assert n in s.lists[level];
    assert n in s.lists[0] by {
      assert level > 0 ==> Part(s.lists[level], s.lists[0]);
    }
    var k :| 0 <= k < |s.lists[0]| && s.lists[0][k] == n;
    assert KeysOf(s)[k] == s.heap.keys[n];
  }

  /** Where the new node goes on level i, and what is there before it is linked. */
  lemma GrowingPlace(s0: State, s: State, x: nat, key: int, height: nat, i: nat)
    requires Growing(s0, s, x, key, height, i) && i < height
    ensures i < MAX_HEIGHT == |s.lists| && s.lists[i] == s0.lists[i] && x != 0 && x !in s.lists[i]
    ensures IsNode(s.heap, x, i) && s.heap.keys[x] == key
    ensures var p := Prev(s.lists[i], RankIn(s0, i, key));
            && p != x && IsNode(s.heap, p, i)
            && s.heap.next[p][i] == At(s.lists[i], RankIn(s0, i, key))
    ensures forall j :: 0 <= j < |s.lists[i]| ==> s.lists[i][j] < x && s.lists[i][j] < |s.heap.keys|
    ensures forall j :: 0 <= j < |s.lists[i]| ==>
              if j < RankIn(s0, i, key) then s.heap.keys[s.lists[i][j]] < key else key < s.heap.keys[s.lists[i][j]]
  {
    hide Linked;
    var r := RankIn(s0, i, key);
    Follow(s, i, r);
    forall j | 0 <= j < |s.lists[i]|
      ensures s.lists[i][j] < x
      ensures if j < r then s.heap.keys[s.lists[i][j]] < key else key < s.heap.keys[s.lists[i][j]]
    {
      Follow(s0, i, j);
      if j >= r {
        AfterRank(s0, i, key, j);
      }
    }
    if r > 0 {
      assert s.lists[i][r - 1] < x;
    }
  }

  lemma PrepareIsStep(s0: State, s: State, s': State, x: nat, key: int, height: nat, i: nat)
    requires Growing(s0, s, x, key, height, i) && i < height && i < |s.lists| && i < |s0.lists| && Ok(s0)
    requires IsNode(s.heap, x, i) && IsNode(s.heap, Prev(s.lists[i], RankIn(s0, i, key)), i)
    requires s' == s.(heap := Store(s.heap, x, i, s.heap.next[Prev(s.lists[i], RankIn(s0, i, key))][i]))
    ensures WriterStep(s, s') && Growing(s0, s', x, key, height, i)
    ensures var p := Prev(s'.lists[i], RankIn(s0, i, key));
            IsNode(s'.heap, x, i) && IsNode(s'.heap, p, i) && s'.heap.next[x][i] == s'.heap.next[p][i]
  {
    hide Linked, Ok, RankIn, KeysOf;
    GrowingPlace(s0, s, x, key, height, i);
    assert Prepare(s, s', x, i, s.heap.next[Prev(s.lists[i], RankIn(s0, i, key))][i]);
    StepKeepsOk(s, s');
  }

  lemma PublishIsStep(s0: State, s: State, s': State, x: nat, key: int, height: nat, i: nat)
    requires Growing(s0, s, x, key, height, i) && i < height && i < |s.lists| && i < |s0.lists| && Ok(s0)
    requires IsNode(s.heap, x, i) && IsNode(s.heap, Prev(s.lists[i], RankIn(s0, i, key)), i)
    requires s.heap.next[x][i] == s.heap.next[Prev(s.lists[i], RankIn(s0, i, key))][i]
    requires s' == State(Store(s.heap, Prev(s.lists[i], RankIn(s0, i, key)), i, x),
                         s.lists[i := Inserted(s.lists[i], RankIn(s0, i, key), x)])
    ensures WriterStep(s, s') && Growing(s0, s', x, key, height, i + 1)
  {
    hide Linked, Ok, RankIn, KeysOf, Inserted;
    GrowingPlace(s0, s, x, key, height, i);
    if i > 0 {
      InsertedMembers(s0.lists[i - 1], RankIn(s0, i - 1, key), x);
    }
    assert Publish(s, s', x, i, RankIn(s0, i, key));
    StepKeepsOk(s, s');
  }

  /** In the end the keys are as before with the new one at its rank. */
  lemma Grown(s0: State, s: State, x: nat, key: int, height: nat)
    requires Growing(s0, s, x, key, height, height) && height > 0
    ensures Ok(s0) && Ok(s)
    ensures var r := RankIn(s0, 0, key); KeysOf(s) == KeysOf(s0)[..r] + [key] + KeysOf(s0)[r..]
  {
    hide Linked, RankIn;
    var r := RankIn(s0, 0, key);
    assert s.lists[0] == Inserted(s0.lists[0], r, x);
    assert KeysOf(s) == KeysOf(s0)[..r] + [key] + KeysOf(s0)[r..];
  }

  lemma HeightFits(s: State)
    requires Ok(s)
    ensures 1 <= s.heap.height <= MAX_HEIGHT == |s.lists|
  {
  }

  lemma LastGoesDown(s: State, x: nat, level: nat) returns (i: nat)
    requires Ok(s) && 0 < level < MAX_HEIGHT && x == Prev(s.lists[level], |s.lists[level]|)
    ensures i <= |s.lists[level - 1]| && x == Prev(s.lists[level - 1], i)
  {
    hide Linked;
    assert Part(s.lists[level], s.lists[level - 1]);
    i := Place(s, x, level - 1);
  }

  /** A key is in the list exactly if the node at its rank has it. */
  lemma FoundAtRank(s: State, key: int)
    requires Ok(s)
    ensures var x := At(s.lists[0], RankIn(s, 0, key));
            (x != 0 && x < |s.heap.keys| && s.heap.keys[x] == key) <==> key in KeysOf(s)
  {
    var list, r := s.lists[0], RankIn(s, 0, key);
    Follow(s, 0, r);
    if key in KeysOf(s) {
      var j :| 0 <= j < |list| && KeysOf(s)[j] == key;
      assert Linked(s.heap, 0, list);
      assert r == j;
    }
    if r < |list| && s.heap.keys[list[r]] == key {
      assert KeysOf(s)[r] == key;
    }
  }
}
