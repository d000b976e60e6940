/** Byte-string order, and the shortened keys of a table's index. */
module Separators {
  import opened Basics

  /** An internal key as a table stores it: the user key's bytes and the packed sequence number and type. */
  datatype TableKey = TableKey(user: seq<byte>, tag: nat)

  /** The tag of the earliest internal key of a user key: the largest sequence number and the type to seek with. */
  const SEEK_TAG: nat := 0xFF_FFFF_FFFF_FFFF * 256 + 1

  /** BytewiseComparator: a before b. */
  predicate Before(a: seq<byte>, b: seq<byte>) {
    b != [] && (a == [] || a[0] < b[0] || (a[0] == b[0] && Before(a[1..], b[1..])))
  }

  lemma {:induction false} BeforeTransitive(a: seq<byte>, b: seq<byte>, c: seq<byte>)
    requires Before(a, b) && Before(b, c)
    ensures Before(a, c)
  {
    if a != [] && a[0] == b[0] == c[0] {
      BeforeTransitive(a[1..], b[1..], c[1..]);
    }
  }

  lemma {:induction false} BeforeTotal(a: seq<byte>, b: seq<byte>)
    ensures Before(a, b) || Before(b, a) || a == b
    ensures !(Before(a, b) && Before(b, a)) && !Before(a, a)
  {
    if a != [] {
      BeforeTotal(a[1..], a[1..]);
      if b != [] && a[0] == b[0] {
        BeforeTotal(a[1..], b[1..]);
        assert a == [a[0]] + a[1..] && b == [b[0]] + b[1..];
      }
    }
  }

  /** The first byte that differs decides. */
  lemma {:induction false} FirstDifference(a: seq<byte>, b: seq<byte>, d: nat)
    requires d < |a| && d < |b| && a[..d] == b[..d] && a[d] < b[d]
    ensures Before(a, b)
  {
    if d > 0 {
      assert a[0] == a[..d][0] && b[0] == b[..d][0];
      assert a[1..][..d - 1] == a[..d][1..] && b[1..][..d - 1] == b[..d][1..];
      FirstDifference(a[1..], b[1..], d - 1);
    }
  }

  /** A short string at or after start and, if start is before limit, before limit. */
  method FindShortestSeparator(start: seq<byte>, limit: seq<byte>) returns (r: seq<byte>)
    ensures r == start || Before(start, r)
    ensures r != start ==> Before(r, limit) && |r| <= |start|
    ensures forall d :: 0 <= d < |start| && d < |limit| && start[..d] == limit[..d] && start[d] != limit[d] ==>
              r == if start[d] < 0xFF && start[d] + 1 < limit[d] then start[..d] + [start[d] + 1] else start
    ensures start <= limit || limit <= start ==> r == start
  {
    var minLength := if |start| < |limit| then |start| else |limit|;
    var diff := 0;
    while diff < minLength && start[diff] == limit[diff]
      invariant diff <= minLength && start[..diff] == limit[..diff]
    {
      diff := diff + 1;
    }
    r := start;
    if diff < minLength {
      if start[diff] < 0xFF && start[diff] + 1 < limit[diff] {
        r := start[..diff] + [start[diff] + 1];
        FirstDifference(start, r, diff);
        FirstDifference(r, limit, diff);
      }
    }
  }

  /** A short string at or after key. */
  method FindShortSuccessor(key: seq<byte>) returns (r: seq<byte>)
    ensures (r == key || Before(key, r)) && |r| <= |key|
    ensures forall i :: 0 <= i < |key| && key[i] != 0xFF && (forall j :: 0 <= j < i ==> key[j] == 0xFF) ==>
              r == key[..i] + [key[i] + 1]
    ensures (forall j :: 0 <= j < |key| ==> key[j] == 0xFF) ==> r == key
  {
    for i := 0 to |key|
      invariant forall j :: 0 <= j < i ==> key[j] == 0xFF
    {
      if key[i] != 0xFF {
        r := key[..i] + [key[i] + 1];
        FirstDifference(key, r, i);
        return;
      }
    }
    r := key;
  }

  // ---- internal keys ----

  /** InternalKeyComparator: user key ascending, then tag descending. */
  predicate Less(a: TableKey, b: TableKey) {
    Before(a.user, b.user) || (a.user == b.user && a.tag > b.tag)
  }

  lemma LessTransitive(a: TableKey, b: TableKey, c: TableKey)
    requires Less(a, b) && Less(b, c)
    ensures Less(a, c)
  {
    if Before(a.user, b.user) && Before(b.user, c.user) {
      BeforeTransitive(a.user, b.user, c.user);
    }
  }

  lemma LessTotal(a: TableKey, b: TableKey)
    ensures Less(a, b) || Less(b, a) || a == b
    ensures !(Less(a, b) && Less(b, a)) && !Less(a, a)
  {
    BeforeTotal(a.user, b.user);
  }

  /** r stands between start and limit, and no key that start is before and r is not has limit's user key. */
  ghost predicate Separates(start: TableKey, r: TableKey, limit: TableKey) {
    && !Less(r, start) && Less(r, limit)
    && forall t: TableKey :: Less(start, t) && !Less(r, t) ==> t.user != limit.user
  }

  /** InternalKeyComparator::FindShortestSeparator, for consecutive keys of a table. */
  method SeparatorKey(start: TableKey, limit: TableKey) returns (r: TableKey)
    requires Less(start, limit)
    ensures Separates(start, r, limit)
    ensures r == start || (|r.user| < |start.user| && r.tag == 0xFF_FFFF_FFFF_FFFF * 256 + 1)
    ensures forall d :: 0 <= d < |start.user| - 1 && d < |limit.user| && start.user[..d] == limit.user[..d] ==>
              (start.user[d] < 0xFF && start.user[d] + 1 < limit.user[d] ==>
                 r.user == start.user[..d] + [start.user[d] + 1])
  {
    var tmp := FindShortestSeparator(start.user, limit.user);
    BeforeTotal(start.user, tmp);
    if |tmp| < |start.user| && Before(start.user, tmp) {
      r := TableKey(tmp, SEEK_TAG);
      Shortened(start, r, limit);
    } else {
      r := start;
      LessTotal(start, start);
      forall t: TableKey | Less(start, t)
        ensures Less(r, t)
      {
      }
    }
  }

  lemma Shortened(start: TableKey, r: TableKey, limit: TableKey)
    requires Before(start.user, r.user) && Before(r.user, limit.user)
    ensures Separates(start, r, limit)
  {
    LessTotal(start, r);
    forall t: TableKey | !Less(r, t)
      ensures t.user != limit.user
    {
    }
  }

  /** InternalKeyComparator::FindShortSuccessor. */
  method SuccessorKey(key: TableKey) returns (r: TableKey)
    ensures !Less(r, key)
    ensures r == key || (|r.user| < |key.user| && r.tag == 0xFF_FFFF_FFFF_FFFF * 256 + 1)
    ensures forall i :: 0 <= i < |key.user| - 1 && key.user[i] != 0xFF ==>
              ((forall j :: 0 <= j < i ==> key.user[j] == 0xFF) ==> r.user == key.user[..i] + [key.user[i] + 1])
  {
    var tmp := FindShortSuccessor(key.user);
    LessTotal(key, key);
    r := key;
    if |tmp| < |key.user| && Before(key.user, tmp) {
      r := TableKey(tmp, SEEK_TAG);
      LessTotal(key, r);
    }
  }
}
