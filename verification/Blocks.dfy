/** Table blocks: prefix-compressed entries with restart points, and the iterator that searches them. */
module Blocks {
  import opened Basics
  import opened Coding
  import opened Wire

  type Key = seq<byte>

  datatype Pair = Pair(key: Key, value: seq<byte>)

  predicate Fits32(p: Pair) {
    |p.key| + |p.value| < TWO32
  }

  // ---- entries ----

  /** Three lengths, the part of the key that the previous key does not start with, and the value. */
  function EncodeEntry(shared: nat, p: Pair): seq<byte>
    requires shared <= |p.key|
  {
    EncodeVarint(shared) + EncodeVarint(|p.key| - shared) + EncodeVarint(|p.value|) + p.key[shared..] + p.value
  }

  datatype Header = Header(shared: nat, nonShared: nat, valueLength: nat, size: nat)

  function Checked(h: Header, left: nat): Option<Header> {
    if left < (h.nonShared + h.valueLength) % TWO32 then None else Some(h)
  }

  /** DecodeEntry on the bytes up to the limit; three single bytes take the fast path. */
  function DecodeEntry(s: seq<byte>): Option<Header> {
    if |s| < 3 then None
    else if s[0] < 128 && s[1] < 128 && s[2] < 128 then Checked(Header(s[0], s[1], s[2], 3), |s| - 3)
    else
      match GetVarint32(s)
      case None => None
      case Some(a) =>
        match GetVarint32(a.rest)
        case None => None
        case Some(b) =>
          match GetVarint32(b.rest)
          case None => None
          case Some(c) => Checked(Header(a.value, b.value, c.value, |s| - |c.rest|), |c.rest|)
  }

  function HeaderSize(shared: nat, p: Pair): nat
    requires shared <= |p.key|
  {
    |EncodeVarint(shared)| + |EncodeVarint(|p.key| - shared)| + |EncodeVarint(|p.value|)|
  }

  lemma OneByte(v: nat, rest: seq<byte>)
    ensures |EncodeVarint(v) + rest| >= 1
    ensures (EncodeVarint(v) + rest)[0] < 128 ==>
              v < 128 && |EncodeVarint(v)| == 1 && (EncodeVarint(v) + rest)[0] == v
                && (EncodeVarint(v) + rest)[1..] == rest
  {
    VarintHead(v, rest);
    if v < 128 {
      assert EncodeVarint(v) == [v];
    }
  }

  lemma DecodeEncodeEntry(shared: nat, p: Pair, rest: seq<byte>)
    requires shared <= |p.key| && Fits32(p)
    ensures DecodeEntry(EncodeEntry(shared, p) + rest)
              == Some(Header(shared, |p.key| - shared, |p.value|, HeaderSize(shared, p)))
  {
    hide EncodeVarint, GetVarint32;
    var n := |p.key| - shared;
    var tail := p.key[shared..] + p.value + rest;
    var c := EncodeVarint(|p.value|) + tail;
    var b := EncodeVarint(n) + c;
    var a := EncodeVarint(shared) + b;
    assert EncodeEntry(shared, p) + rest == a;
    GetPutVarint32(shared, b);
    GetPutVarint32(n, c);
    GetPutVarint32(|p.value|, tail);
    OneByte(shared, b);
    OneByte(n, c);
    OneByte(|p.value|, tail);
    LengthsAtLeastOne(shared, n, |p.value|);
    if a[0] < 128 && a[1] < 128 && a[2] < 128 {
      assert a[1] == a[1..][0] && a[2] == a[1..][1..][0];
    }
  }

  lemma LengthsAtLeastOne(x: nat, y: nat, z: nat)
    ensures |EncodeVarint(x)| >= 1 && |EncodeVarint(y)| >= 1 && |EncodeVarint(z)| >= 1
  {
  }

  // ---- blocks ----

  /** How a block was built: its pairs, what each key shares with the one before it, where each entry starts (and the
      last one ends), and which entries are restart points. */
  datatype Plan = Plan(pairs: seq<Pair>, shared: seq<nat>, offsets: seq<nat>, points: seq<nat>)

  function KeyBefore(pairs: seq<Pair>, i: nat): Key
    requires i <= |pairs|
  {
    if i == 0 then [] else pairs[i - 1].key
  }

  /** Entry i has its place in the data, and its key starts with what it shares. */
  predicate EntryOk(data: seq<byte>, b: Plan, i: nat)
    requires |b.shared| == |b.pairs| && |b.offsets| == |b.pairs| + 1 && i < |b.pairs|
  {
    var p, shared := b.pairs[i], b.shared[i];
    && Fits32(p) && shared <= |p.key|
    && shared <= |KeyBefore(b.pairs, i)| && KeyBefore(b.pairs, i)[..shared] == p.key[..shared]
    && b.offsets[i + 1] == b.offsets[i] + |EncodeEntry(shared, p)| <= |data|
    && data[b.offsets[i]..b.offsets[i + 1]] == EncodeEntry(shared, p)
  }

  /** Restart point r is an entry that shares nothing, or the first place of an empty block. */
  predicate PointOk(b: Plan, r: nat)
    requires |b.shared| == |b.pairs| && r < |b.points|
  {
    if b.points[r] < |b.pairs| then b.shared[b.points[r]] == 0 else b.points[r] == |b.pairs| == 0
  }

  predicate LaidOut(data: seq<byte>, b: Plan) {
    && |b.shared| == |b.pairs| && |b.offsets| == |b.pairs| + 1
    && b.offsets[0] == 0 && b.offsets[|b.pairs|] == |data|
    && (forall i :: 0 <= i < |b.pairs| ==> EntryOk(data, b, i))
    && |b.points| > 0 && b.points[0] == 0
    && (forall r, q :: 0 <= r < q < |b.points| ==> b.points[r] < b.points[q])
    && (forall r :: 0 <= r < |b.points| ==> PointOk(b, r))
  }

  /** The offsets of the restart points. */
  function Restarts(b: Plan): (r: seq<nat>)
    requires |b.offsets| == |b.pairs| + 1 && forall r :: 0 <= r < |b.points| ==> b.points[r] <= |b.pairs|
    ensures |r| == |b.points|
  {
    seq(|b.points|, r requires 0 <= r < |b.points| => b.offsets[b.points[r]])
  }

  /** One more entry, a restart point or not. */
  function Extended(b: Plan, p: Pair, shared: nat, restart: bool, end: nat): Plan {
    Plan(b.pairs + [p], b.shared + [shared], b.offsets + [end], if restart then b.points + [|b.pairs|] else b.points)
  }

  lemma ExtendedLaidOut(data: seq<byte>, b: Plan, p: Pair, shared: nat, restart: bool)
    requires LaidOut(data, b) && Fits32(p) && shared <= |p.key| && (restart ==> shared == 0 && b.pairs != [])
    requires shared <= |KeyBefore(b.pairs, |b.pairs|)| && KeyBefore(b.pairs, |b.pairs|)[..shared] == p.key[..shared]
    ensures LaidOut(data + EncodeEntry(shared, p), Extended(b, p, shared, restart, |data + EncodeEntry(shared, p)|))
  {
    hide EncodeEntry;
    var entry := EncodeEntry(shared, p);
    var b' := Extended(b, p, shared, restart, |data + entry|);
    forall i | 0 <= i < |b'.pairs|
      ensures EntryOk(data + entry, b', i)
    {
      if i < |b.pairs| {
        EntryStays(data, b, entry, p, shared, restart, i);
      } else {
        assert (data + entry)[|data|..|data| + |entry|] == entry;
      }
    }
    forall r | 0 <= r < |b'.points|
      ensures PointOk(b', r)
    {
      if r < |b.points| {
        assert PointOk(b, r);
        FirstIsWhole(data, b);
      }
    }
    PointsInside(data, b);
  }

  lemma EntryStays(data: seq<byte>, b: Plan, entry: seq<byte>, p: Pair, shared: nat, restart: bool, i: nat)
    requires LaidOut(data, b) && i < |b.pairs|
    ensures EntryOk(data + entry, Extended(b, p, shared, restart, |data + entry|), i)
  {
    hide EncodeEntry;
    assert EntryOk(data, b, i);
    var lo, hi := b.offsets[i], b.offsets[i + 1];
    assert (data + entry)[lo..hi] == data[lo..hi];
  }

  /** The first entry shares nothing. */
  lemma FirstIsWhole(data: seq<byte>, b: Plan)
    requires LaidOut(data, b)
    ensures b.pairs != [] ==> b.shared[0] == 0
  {
    assert b.pairs != [] ==> EntryOk(data, b, 0);
  }

  lemma PointsInside(data: seq<byte>, b: Plan)
    requires LaidOut(data, b)
    ensures forall r :: 0 <= r < |b.points| ==> b.points[r] <= |b.pairs| && (b.pairs != [] ==> b.points[r] < |b.pairs|)
  {
    forall r | 0 <= r < |b.points|
      ensures b.points[r] <= |b.pairs| && (b.pairs != [] ==> b.points[r] < |b.pairs|)
    {
      assert PointOk(b, r);
    }
  }

  /** Restart points are interval entries apart, and counter entries have come since the last one. */
  predicate Spaced(interval: nat, b: Plan, counter: nat) {
    && |b.points| > 0 && (forall r :: 0 <= r < |b.points| ==> b.points[r] == r * interval)
    && |b.pairs| == b.points[|b.points| - 1] + counter
  }

  lemma StillSpaced(interval: nat, b: Plan, p: Pair, shared: nat, restart: bool, end: nat, counter: nat)
    requires Spaced(interval, b, counter) && counter <= interval && (restart <==> counter >= interval)
    ensures Spaced(interval, Extended(b, p, shared, restart, end), if restart then 1 else counter + 1)
  {
    var n := |b.points|;
    assert b.points[n - 1] == (n - 1) * interval;
    assert n * interval == (n - 1) * interval + interval;
  }

  class BlockBuilder {
    const interval: nat
    var buffer: seq<byte>
    var restarts: seq<nat>
    var counter: nat
    var lastKey: Key
    ghost var plan: Plan

    ghost predicate Valid()
      reads this
    {
      && interval >= 1 && counter <= interval && LaidOut(buffer, plan) && Spaced(interval, plan, counter)
      && (forall r :: 0 <= r < |plan.points| ==> plan.points[r] <= |plan.pairs|) && restarts == Restarts(plan)
      && lastKey == KeyBefore(plan.pairs, |plan.pairs|) && (plan.pairs == [] ==> counter == 0)
    }

    constructor (interval: nat)
      requires interval >= 1
      ensures Valid() && plan.pairs == []
    {
      this.interval := interval;
      buffer, restarts, counter, lastKey := [], [0], 0, [];
      plan := Plan([], [], [0], [0]);
    }

    /** Appends an entry that shares with the last key all it can, or starts a new restart run, which is every
        interval-th entry. */
    method Add(key: Key, value: seq<byte>)
      requires Valid() && Fits32(Pair(key, value))
      modifies this
      ensures Valid() && plan.pairs == old(plan.pairs) + [Pair(key, value)] && old(buffer) <= buffer
      ensures |plan.shared| == |old(plan.shared)| + 1
      ensures var n, last := plan.shared[|old(plan.shared)|], old(lastKey);
              if old(counter) >= interval then n == 0 && plan.points == old(plan.points) + [|old(plan.pairs)|]
              else
                && plan.points == old(plan.points) && n <= |last| && n <= |key| && last[..n] == key[..n]
                && (n < |last| && n < |key| ==> last[n] != key[n])
    {
      hide EncodeEntry, LaidOut, Spaced;
      var shared, restart := 0, counter >= interval;
      if !restart {
        var most := if |lastKey| < |key| then |lastKey| else |key|;
        while shared < most && lastKey[shared] == key[shared]
          invariant shared <= most && lastKey[..shared] == key[..shared]
        {
          shared := shared + 1;
        }
      } else {
        restarts := restarts + [|buffer|];
        counter := 0;
      }
      ExtendedLaidOut(buffer, plan, Pair(key, value), shared, restart);
      ExtendedRestarts(buffer, plan, Pair(key, value), shared, restart);
      StillSpaced(interval, plan, Pair(key, value), shared, restart, |buffer + EncodeEntry(shared, Pair(key, value))|,
                  old(counter));
      buffer := AppendEntry(buffer, key, value, shared);
      plan := Extended(plan, Pair(key, value), shared, restart, |buffer|);
      lastKey := lastKey[..shared] + key[shared..];
      counter := counter + 1;
    }

    /** The data, then the restart offsets and their number. */
    method Finish() returns (contents: seq<byte>)
      requires Valid()
      modifies this`buffer
      ensures contents == buffer == old(buffer) + EncodeWords(restarts) + Fixed32(|restarts| % TWO32)
    {
      buffer := AppendWords(buffer, restarts);
      buffer := buffer + Fixed32(|restarts| % TWO32);
      contents := buffer;
    }
  }

  method AppendEntry(buffer: seq<byte>, key: Key, value: seq<byte>, shared: nat) returns (r: seq<byte>)
    requires shared <= |key|
    ensures r == buffer + EncodeEntry(shared, Pair(key, value))
  {
    hide EncodeVarint;
    r := buffer + EncodeVarint(shared);
    r := r + EncodeVarint(|key| - shared);
    r := r + EncodeVarint(|value|);
    r := r + key[shared..];
    r := r + value;
  }

  lemma ExtendedRestarts(data: seq<byte>, b: Plan, p: Pair, shared: nat, restart: bool)
    requires LaidOut(data, b) && shared <= |p.key|
    ensures forall r :: 0 <= r < |b.points| ==> b.points[r] <= |b.pairs|
    ensures var b' := Extended(b, p, shared, restart, |data + EncodeEntry(shared, p)|);
            && (forall r :: 0 <= r < |b'.points| ==> b'.points[r] <= |b'.pairs|)
            && Restarts(b') == if restart then Restarts(b) + [|data|] else Restarts(b)
  {
    hide EncodeEntry;
    PointsInside(data, b);
  }

  // ---- reading a block ----

  /** The block bytes of a plan: data up to the limit, then as many restart offsets as there are points. */
  predicate Holds(contents: seq<byte>, limit: nat, b: Plan) {
    && limit + 4 * |b.points| <= |contents| && LaidOut(contents[..limit], b)
    && forall r :: 0 <= r < |b.points| ==>
       b.points[r] <= |b.pairs| && WordAt(contents, limit + 4 * r) == b.offsets[b.points[r]]
  }

  /** Where the restart array starts and how many entries it has; nothing if there is no room for it. */
  method OpenBlock(contents: seq<byte>) returns (r: Option<(nat, nat)>)
    ensures r.Some? ==> r.value.0 + 4 * (r.value.1 + 1) == |contents| && r.value.1 == WordAt(contents, |contents| - 4)
    ensures r.None? <==> |contents| < 4 || WordAt(contents, |contents| - 4) > (|contents| - 4) / 4
  {
    if |contents| < 4 {
      return None;
    }
    var n := WordAt(contents, |contents| - 4);
    if n > (|contents| - 4) / 4 {
      return None;
    }
    r := Some((|contents| - (1 + n) * 4, n));
  }

  /** What Finish returns opens as the plan it was built to. */
  lemma FinishedHolds(data: seq<byte>, b: Plan, contents: seq<byte>)
    requires LaidOut(data, b) && |data| < TWO32 && |b.points| < TWO32
    requires forall r :: 0 <= r < |b.points| ==> b.points[r] <= |b.pairs|
    requires contents == data + EncodeWords(Restarts(b)) + Fixed32(|b.points|)
    ensures Holds(contents, |data|, b)
    ensures |contents| == |data| + 4 * (|b.points| + 1) && WordAt(contents, |contents| - 4) == |b.points|
  {
    var words := Restarts(b);
    hide EncodeWords, Fixed32, WordAt, LaidOut, Restarts;
    assert contents[..|data|] == data;
    RestartsAre(b);
    forall r | 0 <= r < |b.points|
      ensures WordAt(contents, |data| + 4 * r) == b.offsets[b.points[r]]
    {
      RestartFits(data, b, r);
      WordInside(data, words, Fixed32(|b.points|), r);
    }
    LastWord(data + EncodeWords(words), |b.points|);
  }

  lemma LastWord(front: seq<byte>, n: nat)
    requires n < TWO32
    ensures WordAt(front + Fixed32(n), |front|) == n
  {
    hide Fixed32, WordAt;
    FixedBack(n, []);
    assert Fixed32(n) + [] == Fixed32(n);
    WordSkips(front, Fixed32(n), 0);
  }

  lemma RestartsAre(b: Plan)
    requires |b.offsets| == |b.pairs| + 1 && forall r :: 0 <= r < |b.points| ==> b.points[r] <= |b.pairs|
    ensures forall r :: 0 <= r < |b.points| ==> Restarts(b)[r] == b.offsets[b.points[r]]
  {
  }

  lemma RestartFits(data: seq<byte>, b: Plan, r: nat)
    requires LaidOut(data, b) && |data| < TWO32 && r < |b.points|
    requires forall r :: 0 <= r < |b.points| ==> b.points[r] <= |b.pairs|
    ensures Restarts(b)[r] < TWO32
  {
    OffsetsFit(data, b, b.points[r]);
  }

  lemma {:induction false} OffsetsFit(data: seq<byte>, b: Plan, i: nat)
    requires LaidOut(data, b) && i <= |b.pairs|
    ensures b.offsets[i] <= |data|
  {
    if i < |b.pairs| {
      assert EntryOk(data, b, i);
    }
  }
}
