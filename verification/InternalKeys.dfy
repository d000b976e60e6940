/** Internal keys, entries, and what a read at a snapshot means. */
module InternalKeys {
  import opened Basics

  /** A user key stands for its position in the user comparator's order.
      Every countable total order embeds in the reals, so nothing about the comparator is lost. */
  type UserKey = real

  type Bytes = string

  /** Sequence numbers use 56 bits of the packed tag. */
  const MAX_SEQUENCE: nat := 0xFF_FFFF_FFFF_FFFF

  datatype ValueType = Deletion | Value

  datatype InternalKey = InternalKey(user: UserKey, sequence: nat, kind: ValueType)

  datatype Entry = Entry(key: InternalKey, val: Bytes)

  /** The low eight bits of the tag hold the value type. */
  function Tag(k: InternalKey): nat {
    k.sequence * 256 + (if k.kind.Value? then 1 else 0)
  }

  /** The comparator's "a before b": user key ascending, then packed tag descending. */
  predicate Less(a: InternalKey, b: InternalKey) {
    a.user < b.user || (a.user == b.user && Tag(a) > Tag(b))
  }

  /** The order stored entries obey. Sequence numbers are never reused, so two stored entries of one
      user key differ in the sequence number and the type never decides. */
  predicate Precedes(a: InternalKey, b: InternalKey) {
    a.user < b.user || (a.user == b.user && a.sequence > b.sequence)
  }

  predicate SortedEntries(es: seq<Entry>) {
    forall i, j :: 0 <= i < j < |es| ==> Precedes(es[i].key, es[j].key)
  }

  /** The earliest internal key that a lookup of u at snapshot s may accept. */
  function SeekKey(u: UserKey, s: nat): InternalKey {
    InternalKey(u, s, Value)
  }

  function EntrySet(es: seq<Entry>): set<Entry> {
    set e | e in es
  }

  // ---- the meaning of a read ----

  datatype Answer = NotFound | Found(val: Bytes)

  function Outcome(e: Entry): Answer {
    if e.key.kind.Value? then Found(e.val) else NotFound
  }

  /** e is visible to a read of u at snapshot s. */
  predicate Visible(e: Entry, u: UserKey, s: nat) {
    e.key.user == u && e.key.sequence <= s
  }

  ghost predicate Newest(S: set<Entry>, u: UserKey, s: nat, e: Entry) {
    e in S && Visible(e, u, s) && forall x :: x in S && Visible(x, u, s) ==> x.key.sequence <= e.key.sequence
  }

  /** One user key never has two entries with one sequence number. */
  ghost predicate DistinctSeq(S: set<Entry>) {
    forall x, y :: x in S && y in S && x.key.user == y.key.user && x.key.sequence == y.key.sequence ==> x == y
  }

  ghost predicate NoneVisible(S: set<Entry>, u: UserKey, s: nat) {
    forall x :: x in S ==> !Visible(x, u, s)
  }

  /** The reference answer: the newest entry of u at or below s, over all entries. */
  ghost function Read(S: set<Entry>, u: UserKey, s: nat): Answer {
    if exists e :: Newest(S, u, s, e) then var e :| Newest(S, u, s, e); Outcome(e) else NotFound
  }

  lemma ReadIsNewest(S: set<Entry>, u: UserKey, s: nat, e: Entry)
    requires DistinctSeq(S) && Newest(S, u, s, e)
    ensures Read(S, u, s) == Outcome(e)
  {
    forall x | Newest(S, u, s, x)
      ensures x == e
    {
    }
  }

  lemma ReadNothing(S: set<Entry>, u: UserKey, s: nat)
    requires NoneVisible(S, u, s)
    ensures Read(S, u, s) == NotFound
  {
  }

  /** A nonempty visible set has a newest entry. */
  lemma {:induction false} NewestExists(S: set<Entry>, u: UserKey, s: nat)
    requires !NoneVisible(S, u, s)
    ensures exists e :: Newest(S, u, s, e)
  {
    var x :| x in S && Visible(x, u, s);
    var rest := S - {x};
    if NoneVisible(rest, u, s) {
      assert forall y :: y in S && Visible(y, u, s) ==> y == x;
      assert Newest(S, u, s, x);
    } else {
      NewestExists(rest, u, s);
      var e :| Newest(rest, u, s, e);
      var best := if e.key.sequence >= x.key.sequence then e else x;
      assert forall y :: y in S && Visible(y, u, s) ==> y == x || y in rest;
      assert Newest(S, u, s, best);
    }
  }

  /** Either nothing is visible, or there is a newest entry and it is the answer. */
  lemma ReadCases(S: set<Entry>, u: UserKey, s: nat) returns (e: Option<Entry>)
    requires DistinctSeq(S)
    ensures e.None? ==> NoneVisible(S, u, s) && Read(S, u, s) == NotFound
    ensures e.Some? ==> Newest(S, u, s, e.value) && Read(S, u, s) == Outcome(e.value)
  {
    if NoneVisible(S, u, s) {
      ReadNothing(S, u, s);
      e := None;
    } else {
      NewestExists(S, u, s);
      var x :| Newest(S, u, s, x);
      ReadIsNewest(S, u, s, x);
      e := Some(x);
    }
  }

  /** Sorted entries never repeat a sequence number of a user key. */
  lemma SortedDistinct(es: seq<Entry>)
    requires SortedEntries(es)
    ensures DistinctSeq(EntrySet(es))
  {
    forall x, y | x in es && y in es && x.key.user == y.key.user && x != y
      ensures x.key.sequence != y.key.sequence
    {
      var i :| 0 <= i < |es| && es[i] == x;
      var j :| 0 <= j < |es| && es[j] == y;
      assert i < j ==> Precedes(x.key, y.key);
      assert j < i ==> Precedes(y.key, x.key);
    }
  }
}
