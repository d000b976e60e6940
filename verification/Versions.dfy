/** Table files, versions, the invariant reads rely on, and Version::Get. */
module Versions {
  import opened Basics
  import opened InternalKeys

  const NUM_LEVELS: nat := 7

  /** The metadata of a table file together with the entries the table holds. */
  datatype FileMeta = FileMeta(number: nat, size: nat, smallest: InternalKey, largest: InternalKey,
                               entries: seq<Entry>)

  /** One list of files per level; level 0 in the order of the builder, not of age. */
  type Version = seq<seq<FileMeta>>

  // ---- files ----

  predicate FileOk(f: FileMeta) {
    && |f.entries| > 0
    && SortedEntries(f.entries)
    && f.smallest == f.entries[0].key
    && f.largest == f.entries[|f.entries| - 1].key
    && forall i :: 0 <= i < |f.entries| ==> f.entries[i].key.sequence <= MAX_SEQUENCE
  }

  /** For every user key they share, f holds only newer entries than g. */
  ghost predicate NewerThan(f: FileMeta, g: FileMeta) {
    forall e, x :: e in f.entries && x in g.entries && e.key.user == x.key.user
      ==> e.key.sequence > x.key.sequence
  }

  ghost function LevelEntries(files: seq<FileMeta>): set<Entry> {
    set f, e | f in files && e in f.entries :: e
  }

  ghost function AllEntries(v: Version): set<Entry> {
    set files, f, e | files in v && f in files && e in f.entries :: e
  }

  /** The files of a level below 0 are sorted and share no internal key. */
  predicate DisjointLevel(files: seq<FileMeta>) {
    forall i, j :: 0 <= i < j < |files| ==> Precedes(files[i].largest, files[j].smallest)
  }

  /** The user-key range [lo, hi] touches the file; None is unbounded. */
  predicate Overlaps(f: FileMeta, lo: Option<UserKey>, hi: Option<UserKey>) {
    (lo.Some? ==> lo.value <= f.largest.user) && (hi.Some? ==> f.smallest.user <= hi.value)
  }

  // ---- versions ----

  ghost predicate FilesOk(v: Version) {
    forall l, i :: 0 <= l < |v| && 0 <= i < |v[l]| ==> FileOk(v[l][i])
  }

  ghost predicate SortedLevels(v: Version) {
    forall l :: 1 <= l < |v| ==> DisjointLevel(v[l])
  }

  /** Higher-numbered level-0 files are newer. */
  ghost predicate NewestByNumber(files: seq<FileMeta>) {
    forall i, j :: 0 <= i < |files| && 0 <= j < |files| && files[i].number > files[j].number
      ==> NewerThan(files[i], files[j])
  }

  /** Shallower levels are newer. */
  ghost predicate NewestByLevel(v: Version) {
    forall a, b, i, j :: 0 <= a < b < |v| && 0 <= i < |v[a]| && 0 <= j < |v[b]|
      ==> NewerThan(v[a][i], v[b][j])
  }

  predicate DistinctNumbers(files: seq<FileMeta>) {
    forall i, j :: 0 <= i < j < |files| ==> files[i].number != files[j].number
  }

  /** A file number lives on one level only. */
  ghost predicate NumbersApart(v: Version) {
    forall a, b, i, j :: 0 <= a < b < |v| && 0 <= i < |v[a]| && 0 <= j < |v[b]|
      ==> v[a][i].number != v[b][j].number
  }

  /** What every read relies on and every installed edit must keep. */
  ghost predicate VersionOk(v: Version) {
    && |v| == NUM_LEVELS
    && FilesOk(v)
    && SortedLevels(v)
    && NewestByNumber(v[0])
    && NewestByLevel(v)
    && (forall l :: 0 <= l < |v| ==> DistinctNumbers(v[l]))
    && NumbersApart(v)
  }

  lemma EntryBounds(f: FileMeta, e: Entry)
    requires FileOk(f) && e in f.entries
    ensures f.smallest.user <= e.key.user <= f.largest.user
    ensures e.key.user == f.smallest.user ==> e.key.sequence <= f.smallest.sequence
    ensures e.key.user == f.largest.user ==> f.largest.sequence <= e.key.sequence
    ensures e.key.sequence <= MAX_SEQUENCE
  {
    var i :| 0 <= i < |f.entries| && f.entries[i] == e;
    assert i > 0 ==> Precedes(f.entries[0].key, f.entries[i].key);
    assert i < |f.entries| - 1 ==> Precedes(f.entries[i].key, f.entries[|f.entries| - 1].key);
  }

  /** Two entries found anywhere in a valid version differ in user key or sequence number. */
  lemma VersionDistinct(v: Version)
    requires VersionOk(v)
    ensures DistinctSeq(AllEntries(v))
  {
    forall x, y | x in AllEntries(v) && y in AllEntries(v) && x.key.user == y.key.user && x != y
      ensures x.key.sequence != y.key.sequence
    {
      var a, i := Locate(v, x);
      var b, j := Locate(v, y);
      if a == b && i == j {
        SameFileDistinct(v[a][i], x, y);
      } else {
        OtherFileDistinct(v, a, i, b, j, x, y);
      }
    }
  }

  lemma SameFileDistinct(f: FileMeta, x: Entry, y: Entry)
    requires FileOk(f) && x in f.entries && y in f.entries && x != y && x.key.user == y.key.user
    ensures x.key.sequence != y.key.sequence
  {
    var p :| 0 <= p < |f.entries| && f.entries[p] == x;
    var q :| 0 <= q < |f.entries| && f.entries[q] == y;
    assert p < q ==> Precedes(x.key, y.key);
    assert q < p ==> Precedes(y.key, x.key);
  }

  lemma OtherFileDistinct(v: Version, a: nat, i: nat, b: nat, j: nat, x: Entry, y: Entry)
    requires VersionOk(v) && a < |v| && b < |v| && i < |v[a]| && j < |v[b]| && !(a == b && i == j)
    requires x in v[a][i].entries && y in v[b][j].entries && x.key.user == y.key.user
    ensures x.key.sequence != y.key.sequence
  {
    if a == b && a > 0 {
      if i < j {
        SortedLevelNewer(v[a], i, j);
      } else {
        SortedLevelNewer(v[a], j, i);
      }
    } else if a == b {
      assert v[0][i].number != v[0][j].number;
    }
    assert NewerThan(v[a][i], v[b][j]) || NewerThan(v[b][j], v[a][i]);
  }

  lemma Locate(v: Version, e: Entry) returns (l: nat, i: nat)
    requires e in AllEntries(v)
    ensures l < |v| && i < |v[l]| && e in v[l][i].entries
  {
    var files, f :| files in v && f in files && e in f.entries;
    l :| 0 <= l < |v| && v[l] == files;
    i :| 0 <= i < |v[l]| && v[l][i] == f;
  }

  /** In a sorted level, of two files sharing a user key the earlier one is newer. */
  lemma SortedLevelNewer(files: seq<FileMeta>, i: nat, j: nat)
    requires i < j < |files| && FileOk(files[i]) && FileOk(files[j]) && DisjointLevel(files)
    ensures NewerThan(files[i], files[j])
    ensures forall e, x :: e in files[i].entries && x in files[j].entries ==> Precedes(e.key, x.key)
  {
    forall e, x | e in files[i].entries && x in files[j].entries
      ensures Precedes(e.key, x.key)
    {
      EntryBounds(files[i], e);
      EntryBounds(files[j], x);
    }
  }

  // ---- searching a level ----

  /** Binary search for the first file whose largest key is at or after the key. */
  method FindFile(files: seq<FileMeta>, key: InternalKey) returns (right: nat)
    requires forall i :: 0 <= i < |files| ==> FileOk(files[i])
    requires DisjointLevel(files)
    ensures right <= |files|
    ensures forall i :: 0 <= i < right ==> Less(files[i].largest, key)
    ensures forall i :: right <= i < |files| ==> !Less(files[i].largest, key)
  {
    var left: nat := 0;
    right := |files|;
    while left < right
      invariant left <= right <= |files|
      invariant forall i :: 0 <= i < left ==> Less(files[i].largest, key)
      invariant forall i :: right <= i < |files| ==> !Less(files[i].largest, key)
    {
      var mid := (left + right) / 2;
      forall i, j | 0 <= i < j < |files|
        ensures Precedes(files[i].largest, files[j].largest)
      {
        SmallestFirst(files[j]);
      }
      if Less(files[mid].largest, key) {
        left := mid + 1;
      } else {
        right := mid;
      }
    }
  }

  lemma SmallestFirst(f: FileMeta)
    requires FileOk(f)
    ensures f.smallest == f.largest || Precedes(f.smallest, f.largest)
    ensures f.smallest.sequence <= MAX_SEQUENCE && f.largest.sequence <= MAX_SEQUENCE
  {
  }

  /** SomeFileOverlapsRange: a scan at level 0, one binary search below. */
  method SomeFileOverlapsRange(disjointSorted: bool, files: seq<FileMeta>, lo: Option<UserKey>, hi: Option<UserKey>)
    returns (found: bool)
    requires forall i :: 0 <= i < |files| ==> FileOk(files[i])
    requires disjointSorted ==> DisjointLevel(files)
    ensures found <==> exists i :: 0 <= i < |files| && Overlaps(files[i], lo, hi)
  {
    if !disjointSorted {
      for i := 0 to |files|
        invariant forall j :: 0 <= j < i ==> !Overlaps(files[j], lo, hi)
      {
        if (lo.Some? && lo.value > files[i].largest.user) || (hi.Some? && hi.value < files[i].smallest.user) {
          // no overlap
        } else {
          assert Overlaps(files[i], lo, hi);
          return true;
        }
      }
      return false;
    }
    var index: nat := 0;
    if lo.Some? {
      index := FindFile(files, InternalKey(lo.value, MAX_SEQUENCE, Value));
    }
    forall i | 0 <= i < |files|
      ensures Precedes(files[i].smallest, files[i].largest) || files[i].smallest == files[i].largest
      ensures files[i].largest.sequence <= MAX_SEQUENCE
    {
      SmallestFirst(files[i]);
    }
    if index >= |files| {
      return false;
    }
    found := !(hi.Some? && hi.value < files[index].smallest.user);
    if found {
      assert Overlaps(files[index], lo, hi);
    }
  }

  // ---- Version::Get ----

  /** The first entry at or after the key: what a table hands to its caller's callback, and where a memtable
      seek lands. */
  method FirstAtOrAfter(es: seq<Entry>, key: InternalKey) returns (hit: Option<Entry>)
    requires SortedEntries(es)
    ensures hit.None? ==> forall e :: e in es ==> Less(e.key, key)
    ensures hit.Some? ==> hit.value in es && !Less(hit.value.key, key)
    ensures hit.Some? ==> forall e :: e in es && !Less(e.key, key) ==> e == hit.value || Precedes(hit.value.key, e.key)
  {
    for i := 0 to |es|
      invariant forall j :: 0 <= j < i ==> Less(es[j].key, key)
    {
      if !Less(es[i].key, key) {
        return Some(es[i]);
      }
    }
    return None;
  }

  function InsertNewest(f: FileMeta, files: seq<FileMeta>): (r: seq<FileMeta>)
    ensures forall g :: g in r <==> g == f || g in files
  {
    if |files| == 0 || f.number > files[0].number then [f] + files
    else [files[0]] + InsertNewest(f, files[1..])
  }

  predicate SortedNewestFirst(files: seq<FileMeta>) {
    forall i, j :: 0 <= i < j < |files| ==> files[i].number >= files[j].number
  }

  /** Level-0 files by descending number; numbers are distinct, so any sort gives this list. */
  function NewestFirst(files: seq<FileMeta>): (r: seq<FileMeta>)
    ensures forall g :: g in r <==> g in files
  {
    if |files| == 0 then [] else InsertNewest(files[0], NewestFirst(files[1..]))
  }

  lemma {:induction false} InsertNewestSorted(f: FileMeta, files: seq<FileMeta>)
    requires SortedNewestFirst(files)
    ensures SortedNewestFirst(InsertNewest(f, files))
  {
    if |files| > 0 && f.number <= files[0].number {
      InsertNewestSorted(f, files[1..]);
      var r := InsertNewest(f, files[1..]);
      forall k | 0 <= k < |r|
        ensures r[k].number <= files[0].number
      {
        assert r[k] in r;
      }
    }
  }

  lemma {:induction false} NewestFirstSorted(files: seq<FileMeta>)
    ensures SortedNewestFirst(NewestFirst(files))
  {
    if |files| > 0 {
      NewestFirstSorted(files[1..]);
      InsertNewestSorted(files[0], NewestFirst(files[1..]));
    }
  }

  /** The newest visible entry for u, or none: the seek, then the saver's comparison of user keys. */
  method SearchEntries(es: seq<Entry>, u: UserKey, s: nat) returns (found: Option<Entry>)
    requires SortedEntries(es)
    ensures found.Some? ==> Newest(EntrySet(es), u, s, found.value)
    ensures found.None? ==> NoneVisible(EntrySet(es), u, s)
  {
    var hit := FirstAtOrAfter(es, SeekKey(u, s));
    forall e | e in es && Visible(e, u, s)
      ensures !Less(e.key, SeekKey(u, s))
    {
    }
    if hit.Some? && hit.value.key.user == u {
      return hit;
    }
    return None;
  }

  /** e is the newest of its file; every other file holds nothing newer for u below s: e is the answer. */
  lemma NewestInVersion(v: Version, l: nat, i: nat, u: UserKey, s: nat, e: Entry)
    requires VersionOk(v) && l < |v| && i < |v[l]|
    requires Newest(EntrySet(v[l][i].entries), u, s, e)
    requires forall a :: 0 <= a < l ==> NoneVisible(LevelEntries(v[a]), u, s)
    requires forall j :: 0 <= j < |v[l]| ==>
      NewerThan(v[l][i], v[l][j]) || j == i || NoneVisible(EntrySet(v[l][j].entries), u, s)
    ensures Read(AllEntries(v), u, s) == Outcome(e)
  {
    forall x | x in AllEntries(v) && Visible(x, u, s)
      ensures x.key.sequence <= e.key.sequence
    {
      var b, j := Locate(v, x);
      assert x in LevelEntries(v[b]);
      assert b == l ==> x in EntrySet(v[l][j].entries);
      assert b > l ==> NewerThan(v[l][i], v[b][j]);
    }
    assert v[l][i] in v[l] && v[l] in v;
    assert Newest(AllEntries(v), u, s, e);
    VersionDistinct(v);
    ReadIsNewest(AllEntries(v), u, s, e);
  }

  lemma NothingInLevel(files: seq<FileMeta>, u: UserKey, s: nat)
    requires forall j :: 0 <= j < |files| ==> NoneVisible(EntrySet(files[j].entries), u, s)
    ensures NoneVisible(LevelEntries(files), u, s)
  {
    forall x | x in LevelEntries(files)
      ensures !Visible(x, u, s)
    {
      var f :| f in files && x in f.entries;
      var j :| 0 <= j < |files| && files[j] == f;
      assert x in EntrySet(files[j].entries);
    }
  }

  /** A file whose user-key range misses u holds nothing for u. */
  lemma OutOfRange(f: FileMeta, u: UserKey, s: nat)
    requires FileOk(f) && !(f.smallest.user <= u <= f.largest.user)
    ensures NoneVisible(EntrySet(f.entries), u, s)
  {
    forall x | x in f.entries
      ensures x.key.user != u
    {
      EntryBounds(f, x);
    }
  }

  /** Looks at newest-first level-0 files, then at one binary-searched file per deeper level. */
  method Get(v: Version, u: UserKey, s: nat) returns (r: Answer)
    requires VersionOk(v) && s <= MAX_SEQUENCE
    ensures r == Read(AllEntries(v), u, s)
  {
    var level := 0;
    while level < NUM_LEVELS
      invariant 0 <= level <= NUM_LEVELS
      invariant forall a :: 0 <= a < level ==> NoneVisible(LevelEntries(v[a]), u, s)
    {
      if level == 0 {
        var hit, p := SearchLevel0(v[0], u, s);
        if hit.Some? {
          NewestInVersion(v, 0, p, u, s, hit.value);
          return Outcome(hit.value);
        }
      } else {
        var files := v[level];
        var index := FindFile(files, SeekKey(u, s));
        if index < |files| && u >= files[index].smallest.user {
          var hit := SearchEntries(files[index].entries, u, s);
          LevelSearchComplete(files, u, s, index);
          if hit.Some? {
            NewestInVersion(v, level, index, u, s, hit.value);
            return Outcome(hit.value);
          }
        } else {
          LevelSearchComplete(files, u, s, index);
          if index < |files| {
            OutOfRange(files[index], u, s);
          }
        }
        NothingInLevel(files, u, s);
      }
      level := level + 1;
    }
    forall x | x in AllEntries(v)
      ensures !Visible(x, u, s)
    {
      var l, i := Locate(v, x);
      assert x in LevelEntries(v[l]);
    }
    ReadNothing(AllEntries(v), u, s);
    return NotFound;
  }

  /** Every file of the level but the one the binary search found is irrelevant to u at s, or older. */
  lemma LevelSearchComplete(files: seq<FileMeta>, u: UserKey, s: nat, index: nat)
    requires forall i :: 0 <= i < |files| ==> FileOk(files[i])
    requires DisjointLevel(files) && index <= |files| && s <= MAX_SEQUENCE
    requires forall i :: 0 <= i < index ==> Less(files[i].largest, SeekKey(u, s))
    requires index < |files| ==> !Less(files[index].largest, SeekKey(u, s))
    ensures forall j :: 0 <= j < |files| && j < index ==> NoneVisible(EntrySet(files[j].entries), u, s)
    ensures forall j :: index < j < |files| ==> NewerThan(files[index], files[j])
    ensures index < |files| && NoneVisible(EntrySet(files[index].entries), u, s)
            ==> forall j :: index < j < |files| ==> NoneVisible(EntrySet(files[j].entries), u, s)
  {
    forall j | 0 <= j < index
      ensures NoneVisible(EntrySet(files[j].entries), u, s)
    {
      forall x | x in files[j].entries
        ensures !Visible(x, u, s)
      {
        EntryBounds(files[j], x);
      }
    }
    forall j | index < j < |files|
      ensures NewerThan(files[index], files[j])
      ensures NoneVisible(EntrySet(files[index].entries), u, s) ==> NoneVisible(EntrySet(files[j].entries), u, s)
    {
      SortedLevelNewer(files, index, j);
      var last := files[index].entries[|files[index].entries| - 1];
      assert last in files[index].entries && last.key == files[index].largest;
      forall x | x in files[j].entries && Visible(x, u, s)
        ensures Visible(last, u, s)
      {
        assert Precedes(last.key, x.key);
      }
    }
  }

  /** The level-0 files whose user-key range contains u. */
  method FilesCovering(files: seq<FileMeta>, u: UserKey, ghost s: nat) returns (tmp: seq<FileMeta>)
    requires forall i :: 0 <= i < |files| ==> FileOk(files[i])
    ensures forall f :: f in tmp ==> f in files
    ensures forall k :: 0 <= k < |files| ==> files[k] in tmp || NoneVisible(EntrySet(files[k].entries), u, s)
  {
    tmp := [];
    for i := 0 to |files|
      invariant forall f :: f in tmp ==> f in files
      invariant forall k :: 0 <= k < i ==> files[k] in tmp || NoneVisible(EntrySet(files[k].entries), u, s)
    {
      if u >= files[i].smallest.user && u <= files[i].largest.user {
        tmp := tmp + [files[i]];
      } else {
        OutOfRange(files[i], u, s);
      }
    }
  }

  /** The level-0 search: the files whose range contains u, newest first. */
  method SearchLevel0(files: seq<FileMeta>, u: UserKey, s: nat) returns (found: Option<Entry>, ghost p: nat)
    requires forall i :: 0 <= i < |files| ==> FileOk(files[i])
    requires NewestByNumber(files)
    requires DistinctNumbers(files)
    ensures found.Some? ==> p < |files| && Newest(EntrySet(files[p].entries), u, s, found.value)
    ensures found.Some? ==> forall j :: 0 <= j < |files| ==>
              NewerThan(files[p], files[j]) || j == p || NoneVisible(EntrySet(files[j].entries), u, s)
    ensures found.None? ==> NoneVisible(LevelEntries(files), u, s)
  {
    p := 0;
    var tmp := FilesCovering(files, u, s);
    var sorted := NewestFirst(tmp);
    NewestFirstSorted(tmp);
    var i;
    i, found := FirstHit(sorted, u, s);
    if found.Some? {
      assert sorted[i] in sorted;
      p :| 0 <= p < |files| && files[p] == sorted[i];
      Level0Hit(files, sorted, i, p, u, s);
    } else {
      Level0Miss(files, sorted, u, s);
    }
  }

  /** The first file in the list that holds something visible. */
  method FirstHit(sorted: seq<FileMeta>, u: UserKey, s: nat) returns (i: nat, found: Option<Entry>)
    requires forall f :: f in sorted ==> FileOk(f)
    ensures i <= |sorted| && (found.Some? ==> i < |sorted| && Newest(EntrySet(sorted[i].entries), u, s, found.value))
    ensures found.None? ==> i == |sorted|
    ensures forall k :: 0 <= k < i ==> NoneVisible(EntrySet(sorted[k].entries), u, s)
  {
    i := 0;
    while i < |sorted|
      invariant i <= |sorted|
      invariant forall k :: 0 <= k < i ==> NoneVisible(EntrySet(sorted[k].entries), u, s)
    {
      assert FileOk(sorted[i]);
      var hit := SearchEntries(sorted[i].entries, u, s);
      if hit.Some? {
        return i, hit;
      }
      i := i + 1;
    }
    return i, None;
  }

  lemma Level0Miss(files: seq<FileMeta>, sorted: seq<FileMeta>, u: UserKey, s: nat)
    requires forall k :: 0 <= k < |sorted| ==> NoneVisible(EntrySet(sorted[k].entries), u, s)
    requires forall j :: 0 <= j < |files| ==> files[j] in sorted || NoneVisible(EntrySet(files[j].entries), u, s)
    ensures NoneVisible(LevelEntries(files), u, s)
  {
    NothingInLevel(files, u, s);
  }

  /** The first hit in newest-first order beats every other level-0 file. */
  lemma Level0Hit(files: seq<FileMeta>, sorted: seq<FileMeta>, i: nat, p: nat, u: UserKey, s: nat)
    requires SortedNewestFirst(sorted) && NewestByNumber(files)
    requires DistinctNumbers(files)
    requires i < |sorted| && p < |files| && files[p] == sorted[i]
    requires forall k :: 0 <= k < i ==> NoneVisible(EntrySet(sorted[k].entries), u, s)
    requires forall j :: 0 <= j < |files| ==> files[j] in sorted || NoneVisible(EntrySet(files[j].entries), u, s)
    ensures forall j :: 0 <= j < |files| ==>
              NewerThan(files[p], files[j]) || j == p || NoneVisible(EntrySet(files[j].entries), u, s)
  {
    forall j | 0 <= j < |files| && j != p && files[j] in sorted
      ensures NewerThan(files[p], files[j]) || NoneVisible(EntrySet(files[j].entries), u, s)
    {
      var q :| 0 <= q < |sorted| && sorted[q] == files[j];
      assert files[p].number != files[j].number;
    }
  }
}
