/** How a compaction chooses its files: overlapping inputs, boundary files, the inputs one level down. */
module Inputs {
  import opened Basics
  import opened InternalKeys
  import opened Versions

  function TotalFileSize(files: seq<FileMeta>): nat {
    if |files| == 0 then 0 else TotalFileSize(files[..|files| - 1]) + files[|files| - 1].size
  }

  /** No files have no size, one has its own, and lists add up. */
  lemma {:induction false} SizesAddUp(files: seq<FileMeta>, f: FileMeta, more: seq<FileMeta>)
    ensures TotalFileSize([]) == 0 && TotalFileSize([f]) == f.size
    ensures TotalFileSize(files + more) == TotalFileSize(files) + TotalFileSize(more)
  {
    if more == [] {
      assert files + more == files;
    } else {
      var n := |more| - 1;
      assert (files + more)[..|files + more| - 1] == files + more[..n];
      SizesAddUp(files, f, more[..n]);
    }
  }

  /** The files whose user-key range touches [lo, hi], in level order. */
  function Overlapping(files: seq<FileMeta>, lo: Option<UserKey>, hi: Option<UserKey>): seq<FileMeta> {
    if |files| == 0 then []
    else
      var last := files[|files| - 1];
      Overlapping(files[..|files| - 1], lo, hi) + if Overlaps(last, lo, hi) then [last] else []
  }

  lemma {:induction false} OverlappingMembers(files: seq<FileMeta>, lo: Option<UserKey>, hi: Option<UserKey>)
    ensures forall f :: f in Overlapping(files, lo, hi) <==> f in files && Overlaps(f, lo, hi)
  {
    if |files| > 0 {
      OverlappingMembers(files[..|files| - 1], lo, hi);
      assert files == files[..|files| - 1] + [files[|files| - 1]];
    }
  }

  function UserOf(k: Option<InternalKey>): Option<UserKey> {
    if k.Some? then Some(k.value.user) else None
  }

  /** No file touching the range sticks out of it. */
  predicate ClosedRange(files: seq<FileMeta>, lo: Option<UserKey>, hi: Option<UserKey>) {
    forall f :: f in files && Overlaps(f, lo, hi)
      ==> (lo.Some? ==> lo.value <= f.smallest.user) && (hi.Some? ==> f.largest.user <= hi.value)
  }

  /** [lo, hi] is contained in [lo', hi']. */
  predicate Within(lo: Option<UserKey>, hi: Option<UserKey>, lo': Option<UserKey>, hi': Option<UserKey>) {
    && (lo'.Some? ==> lo.Some? && lo'.value <= lo.value)
    && (hi'.Some? ==> hi.Some? && hi.value <= hi'.value)
  }

  /** [lo, hi] is the least closed range around [begin, end]. */
  ghost predicate LeastClosed(files: seq<FileMeta>, begin: Option<UserKey>, end: Option<UserKey>,
                              lo: Option<UserKey>, hi: Option<UserKey>)
  {
    ClosedRange(files, lo, hi) && Within(begin, end, lo, hi) && InEveryClosed(files, begin, end, lo, hi)
  }

  /** Every closed range around [begin, end] contains [lo, hi]. */
  ghost predicate InEveryClosed(files: seq<FileMeta>, begin: Option<UserKey>, end: Option<UserKey>,
                                lo: Option<UserKey>, hi: Option<UserKey>)
  {
    forall lo', hi' :: ClosedRange(files, lo', hi') && Within(begin, end, lo', hi') ==> Within(lo, hi, lo', hi')
  }

  /** Widening to the ends of a file the range touches stays inside every closed range. */
  lemma WidenedInEveryClosed(files: seq<FileMeta>, begin: Option<UserKey>, end: Option<UserKey>,
                             lo: Option<UserKey>, hi: Option<UserKey>, f: FileMeta)
    requires InEveryClosed(files, begin, end, lo, hi) && f in files && Overlaps(f, lo, hi)
    ensures lo.Some? ==> InEveryClosed(files, begin, end, Some(f.smallest.user), hi)
    ensures hi.Some? ==> InEveryClosed(files, begin, end, lo, Some(f.largest.user))
  {
    forall lo', hi' | ClosedRange(files, lo', hi') && Within(begin, end, lo', hi')
      ensures lo.Some? ==> Within(Some(f.smallest.user), hi, lo', hi')
      ensures hi.Some? ==> Within(lo, Some(f.largest.user), lo', hi')
    {
      assert Within(lo, hi, lo', hi');
      assert Overlaps(f, lo', hi');
    }
  }

  /** The pass over the first files, extended by one file that does not widen the range. */
  lemma OverlappingNext(files: seq<FileMeta>, i: nat, lo: Option<UserKey>, hi: Option<UserKey>)
    requires i < |files|
    ensures Overlapping(files[..i + 1], lo, hi)
            == Overlapping(files[..i], lo, hi) + if Overlaps(files[i], lo, hi) then [files[i]] else []
    ensures ClosedRange(files[..i], lo, hi) && ClosedRange([files[i]], lo, hi) ==> ClosedRange(files[..i + 1], lo, hi)
  {
    assert files[..i + 1][..i] == files[..i];
    assert forall f :: f in files[..i + 1] ==> f in files[..i] || f in [files[i]];
  }

  /** How many files start before lo, plus how many end after hi: the widenings still possible. */
  function Sticking(files: seq<FileMeta>, lo: Option<UserKey>, hi: Option<UserKey>): nat {
    if |files| == 0 then 0
    else
      (if lo.Some? && files[0].smallest.user < lo.value then 1 else 0) +
      (if hi.Some? && files[0].largest.user > hi.value then 1 else 0) + Sticking(files[1..], lo, hi)
  }

  lemma {:induction false} StickingShrinks(files: seq<FileMeta>, lo: Option<UserKey>, hi: Option<UserKey>,
                                           lo': Option<UserKey>, hi': Option<UserKey>)
    requires lo.Some? == lo'.Some? && hi.Some? == hi'.Some? && Within(lo, hi, lo', hi')
    ensures Sticking(files, lo', hi') <= Sticking(files, lo, hi)
    ensures (exists f :: f in files && lo.Some? && lo'.value <= f.smallest.user < lo.value)
            || (exists f :: f in files && hi.Some? && hi.value < f.largest.user <= hi'.value)
            ==> Sticking(files, lo', hi') < Sticking(files, lo, hi)
  {
    if |files| > 0 {
      StickingShrinks(files[1..], lo, hi, lo', hi');
      assert forall f :: f in files ==> f == files[0] || f in files[1..];
    }
  }

  /** GetOverlappingInputs: one pass below level 0; at level 0 the pass restarts whenever a chosen file
      widens the range. */
  method GetOverlappingInputs(files: seq<FileMeta>, level0: bool, begin: Option<InternalKey>, end: Option<InternalKey>)
    returns (inputs: seq<FileMeta>, ghost lo: Option<UserKey>, ghost hi: Option<UserKey>)
    ensures inputs == Overlapping(files, lo, hi)
    ensures !level0 ==> lo == UserOf(begin) && hi == UserOf(end)
    ensures level0 ==> LeastClosed(files, UserOf(begin), UserOf(end), lo, hi)
    ensures !level0 ==> inputs == Overlapping(files, UserOf(begin), UserOf(end))
    ensures level0 ==>
              exists l, h :: LeastClosed(files, UserOf(begin), UserOf(end), l, h) && inputs == Overlapping(files, l, h)
  {
    var userBegin, userEnd := UserOf(begin), UserOf(end);
    inputs := [];
    var i := 0;
    while i < |files|
      invariant 0 <= i <= |files|
      invariant userBegin.Some? == begin.Some? && userEnd.Some? == end.Some?
      invariant inputs == Overlapping(files[..i], userBegin, userEnd)
      invariant !level0 ==> userBegin == UserOf(begin) && userEnd == UserOf(end)
      invariant level0 ==> ClosedRange(files[..i], userBegin, userEnd)
      invariant Within(UserOf(begin), UserOf(end), userBegin, userEnd)
      invariant level0 ==> InEveryClosed(files, UserOf(begin), UserOf(end), userBegin, userEnd)
      decreases Sticking(files, userBegin, userEnd), |files| - i
    {
      OverlappingNext(files, i, userBegin, userEnd);
      var f := files[i];
      i := i + 1;
      if userBegin.Some? && f.largest.user < userBegin.value {
        // the file is completely before the range
      } else if userEnd.Some? && f.smallest.user > userEnd.value {
        // the file is completely after the range
      } else {
        inputs := inputs + [f];
        if level0 {
          WidenedInEveryClosed(files, UserOf(begin), UserOf(end), userBegin, userEnd, f);
          if userBegin.Some? && f.smallest.user < userBegin.value {
            StickingShrinks(files, userBegin, userEnd, Some(f.smallest.user), userEnd);
            userBegin := Some(f.smallest.user);
            inputs, i := [], 0;
          } else if userEnd.Some? && f.largest.user > userEnd.value {
            StickingShrinks(files, userBegin, userEnd, userBegin, Some(f.largest.user));
            userEnd := Some(f.largest.user);
            inputs, i := [], 0;
          }
        }
      }
    }
    assert files[..|files|] == files;
    lo, hi := userBegin, userEnd;
  }

  // ---- key ranges ----

  /** smallest and largest are attained and bound every input. */
  predicate IsRange(inputs: seq<FileMeta>, smallest: InternalKey, largest: InternalKey) {
    && (forall f :: f in inputs ==> !Less(f.smallest, smallest) && !Less(largest, f.largest))
    && (exists f :: f in inputs && f.smallest == smallest)
    && (exists f :: f in inputs && f.largest == largest)
  }

  method GetRange(inputs: seq<FileMeta>) returns (smallest: InternalKey, largest: InternalKey)
    requires inputs != []
    ensures IsRange(inputs, smallest, largest)
  {
    smallest, largest := inputs[0].smallest, inputs[0].largest;
    for i := 1 to |inputs|
      invariant IsRange(inputs[..i], smallest, largest)
    {
      var f := inputs[i];
      assert inputs[..i + 1] == inputs[..i] + [f];
      assert f in inputs[..i + 1];
      if Less(f.smallest, smallest) {
        smallest := f.smallest;
      }
      if Less(largest, f.largest) {
        largest := f.largest;
      }
    }
    assert inputs[..|inputs|] == inputs;
  }

  // ---- boundary files ----

  function LargestKey(inputs: seq<FileMeta>): InternalKey
    requires inputs != []
  {
    if |inputs| == 1 then inputs[0].largest
    else
      var k := LargestKey(inputs[..|inputs| - 1]);
      var f := inputs[|inputs| - 1];
      if Less(k, f.largest) then f.largest else k
  }

  /** f starts past the key but with the same user key. */
  predicate IsBoundary(f: FileMeta, key: InternalKey) {
    Less(key, f.smallest) && f.smallest.user == key.user
  }

  /** b is the first boundary file after the inputs. */
  predicate BoundaryStep(levelFiles: seq<FileMeta>, inputs: seq<FileMeta>, b: FileMeta)
    requires inputs != []
  {
    && b in levelFiles && IsBoundary(b, LargestKey(inputs))
    && forall f :: f in levelFiles && IsBoundary(f, LargestKey(inputs)) ==> !Less(f.smallest, b.smallest)
  }

  predicate NoBoundary(levelFiles: seq<FileMeta>, inputs: seq<FileMeta>)
    requires inputs != []
  {
    forall f :: f in levelFiles ==> !IsBoundary(f, LargestKey(inputs))
  }

  method FindLargestKey(files: seq<FileMeta>) returns (key: Option<InternalKey>)
    ensures files == [] ==> key == None
    ensures files != [] ==> key == Some(LargestKey(files))
  {
    if |files| == 0 {
      return None;
    }
    var largest := files[0].largest;
    for i := 1 to |files|
      invariant largest == LargestKey(files[..i])
    {
      assert files[..i + 1][..i] == files[..i];
      if Less(largest, files[i].largest) {
        largest := files[i].largest;
      }
    }
    assert files[..|files|] == files;
    return Some(largest);
  }

  method FindSmallestBoundaryFile(levelFiles: seq<FileMeta>, key: InternalKey) returns (r: Option<FileMeta>)
    ensures r.None? ==> forall f :: f in levelFiles ==> !IsBoundary(f, key)
    ensures r.Some? ==> r.value in levelFiles && IsBoundary(r.value, key)
    ensures r.Some? ==> forall f :: f in levelFiles && IsBoundary(f, key) ==> !Less(f.smallest, r.value.smallest)
  {
    r := None;
    for i := 0 to |levelFiles|
      invariant r.None? ==> forall j :: 0 <= j < i ==> !IsBoundary(levelFiles[j], key)
      invariant r.Some? ==> r.value in levelFiles && IsBoundary(r.value, key)
      invariant r.Some? ==> forall f :: f in levelFiles[..i] && IsBoundary(f, key) ==>
                !Less(f.smallest, r.value.smallest)
    {
      var f := levelFiles[i];
      if IsBoundary(f, key) && (r.None? || Less(f.smallest, r.value.smallest)) {
        r := Some(f);
      }
    }
  }

  /** How many files of the level start past the key. */
  function StartingPast(files: seq<FileMeta>, key: InternalKey): nat {
    if |files| == 0 then 0
    else (if Less(key, files[0].smallest) then 1 else 0) + StartingPast(files[1..], key)
  }

  lemma {:induction false} StartingPastShrinks(files: seq<FileMeta>, key: InternalKey, f: FileMeta)
    requires FileOk(f) && Less(key, f.smallest)
    ensures StartingPast(files, f.largest) <= StartingPast(files, key)
    ensures f in files ==> StartingPast(files, f.largest) < StartingPast(files, key)
  {
    SmallestFirst(f);
    if |files| > 0 {
      StartingPastShrinks(files[1..], key, f);
    }
  }

  /** Adds boundary files until the level has none left; every file added is new to the inputs. */
  method AddBoundaryInputs(levelFiles: seq<FileMeta>, inputs: seq<FileMeta>) returns (r: seq<FileMeta>)
    requires forall f :: f in levelFiles ==> FileOk(f)
    ensures inputs <= r
    ensures inputs == [] ==> r == []
    ensures inputs != [] ==> NoBoundary(levelFiles, r)
    ensures inputs != [] ==> forall k :: |inputs| <= k < |r| ==> BoundaryStep(levelFiles, r[..k], r[k])
  {
    r := inputs;
    var key := FindLargestKey(inputs);
    if key.None? {
      return;
    }
    var largest := key.value;
    while true
      invariant inputs <= r
      invariant largest == LargestKey(r)
      invariant forall k :: |inputs| <= k < |r| ==> BoundaryStep(levelFiles, r[..k], r[k])
      decreases StartingPast(levelFiles, largest)
    {
      var b := FindSmallestBoundaryFile(levelFiles, largest);
      if b.None? {
        return;
      }
      StartingPastShrinks(levelFiles, largest, b.value);
      SmallestFirst(b.value);
      var r' := r + [b.value];
      assert r'[..|r|] == r;
      assert forall k :: |inputs| <= k < |r| ==> r'[..k] == r[..k];
      r := r';
      largest := b.value.largest;
    }
  }

  // ---- what selection guarantees ----

  ghost predicate Slice(files: seq<FileMeta>, part: seq<FileMeta>) {
    exists i, j :: 0 <= i < j <= |files| && part == files[i..j]
  }

  /** Inputs at one level that selection may start from: at level 0 the files touching a closed range,
      below that a run of neighbours. */
  ghost predicate Chosen(v: Version, level: nat, inputs: seq<FileMeta>)
    requires level < |v|
  {
    inputs != [] &&
    if level == 0 then exists lo, hi :: ClosedRange(v[0], lo, hi) && inputs == Overlapping(v[0], lo, hi)
    else Slice(v[level], inputs)
  }

  /** No input shares a user key with a left-out file of its level unless that file is newer. */
  ghost predicate ClosedAtLevel(files: seq<FileMeta>, inputs: seq<FileMeta>) {
    forall g, f :: g in files && g !in inputs && f in inputs ==> NewerThan(g, f)
  }

  predicate Before(f: FileMeta, g: FileMeta) {
    Precedes(f.largest, g.smallest)
  }

  /** Every left-out file lies wholly before or wholly after all the inputs. */
  ghost predicate OutsideInputs(files: seq<FileMeta>, own: seq<FileMeta>, inputs: seq<FileMeta>) {
    forall g :: g in files && g !in own
      ==> (forall f :: f in inputs ==> Before(f, g)) || (forall f :: f in inputs ==> Before(g, f))
  }

  lemma LargestKeyBounds(inputs: seq<FileMeta>)
    requires inputs != []
    ensures forall f :: f in inputs ==> !Less(LargestKey(inputs), f.largest)
    ensures exists f :: f in inputs && f.largest == LargestKey(inputs)
  {
    if |inputs| == 1 {
      assert inputs[0] in inputs;
    } else {
      var front, last := inputs[..|inputs| - 1], inputs[|inputs| - 1];
      LargestKeyBounds(front);
      assert inputs == front + [last];
      assert last in inputs;
    }
  }

  lemma LargestAscending(files: seq<FileMeta>)
    requires forall f :: f in files ==> FileOk(f)
    requires DisjointLevel(files)
    ensures forall p, q :: 0 <= p < q < |files| ==> Precedes(files[p].largest, files[q].largest)
  {
    forall p, q | 0 <= p < q < |files|
      ensures Precedes(files[p].largest, files[q].largest)
    {
      SmallestFirst(files[q]);
    }
  }

  /** In a sorted level the largest key of a run of neighbours is the last file's. */
  lemma {:induction false} SliceLargest(files: seq<FileMeta>, i: nat, j: nat)
    requires forall f :: f in files ==> FileOk(f)
    requires DisjointLevel(files) && i < j <= |files|
    ensures LargestKey(files[i..j]) == files[j - 1].largest
  {
    if j > i + 1 {
      SliceLargest(files, i, j - 1);
      assert files[i..j][..j - 1 - i] == files[i..j - 1];
      LargestAscending(files);
    }
  }

  /** In a sorted level the first boundary file is the next neighbour. */
  lemma BoundaryIsNext(files: seq<FileMeta>, i: nat, j: nat, b: FileMeta)
    requires forall f :: f in files ==> FileOk(f)
    requires DisjointLevel(files) && i < j <= |files| && BoundaryStep(files, files[i..j], b)
    ensures j < |files| && b == files[j]
  {
    SliceLargest(files, i, j);
    var p :| 0 <= p < |files| && files[p] == b;
    SmallestFirst(files[p]);
    SmallestFirst(files[j - 1]);
    LargestAscending(files);
    assert p >= j;
    if p > j {
      NextIsBoundary(files, j, p);
    }
  }

  lemma NextIsBoundary(files: seq<FileMeta>, j: nat, p: nat)
    requires DisjointLevel(files) && 0 < j < p < |files| && FileOk(files[j])
    requires IsBoundary(files[p], files[j - 1].largest)
    ensures IsBoundary(files[j], files[j - 1].largest) && Less(files[j].smallest, files[p].smallest)
    ensures files[j] in files
  {
    SmallestFirst(files[j]);
    assert Precedes(files[j - 1].largest, files[j].smallest) && Precedes(files[j].largest, files[p].smallest);
  }

  /** Boundary closure turns a run of neighbours into a longer run. */
  lemma {:induction false} BoundaryKeepsSlice(files: seq<FileMeta>, i: nat, j: nat, r: seq<FileMeta>) returns (j': nat)
    requires forall f :: f in files ==> FileOk(f)
    requires DisjointLevel(files) && i < j <= |files| && files[i..j] <= r
    requires forall k :: j - i <= k < |r| ==> BoundaryStep(files, r[..k], r[k])
    ensures i < j' <= |files| && r == files[i..j']
    decreases |r| - (j - i)
  {
    hide FileOk, DisjointLevel, BoundaryStep;
    if |r| == j - i {
      return j;
    }
    assert r[..j - i] == files[i..j];
    BoundaryIsNext(files, i, j, r[j - i]);
    OneLonger(files, i, j, r);
    j' := BoundaryKeepsSlice(files, i, j + 1, r);
  }

  lemma OneLonger<T>(all: seq<T>, i: nat, j: nat, r: seq<T>)
    requires i <= j < |all| && j - i < |r| && r[..j - i] == all[i..j] && r[j - i] == all[j]
    ensures all[i..j + 1] <= r
  {
    assert all[i..j + 1] == all[i..j] + [all[j]];
    assert r[..j + 1 - i] == r[..j - i] + [r[j - i]];
  }

  /** Boundary closure adds nothing to a closed level-0 set. */
  lemma NoBoundaryAtLevel0(files: seq<FileMeta>, lo: Option<UserKey>, hi: Option<UserKey>, r: seq<FileMeta>)
    requires forall f :: f in files ==> FileOk(f)
    requires ClosedRange(files, lo, hi)
    requires Overlapping(files, lo, hi) != [] && Overlapping(files, lo, hi) <= r
    requires forall k :: |Overlapping(files, lo, hi)| <= k < |r| ==> BoundaryStep(files, r[..k], r[k])
    ensures r == Overlapping(files, lo, hi)
  {
    var inputs := Overlapping(files, lo, hi);
    if |r| > |inputs| {
      assert r[..|inputs|] == inputs;
      ClosedHasNoBoundary(files, lo, hi, r[|inputs|]);
    }
  }

  lemma ClosedHasNoBoundary(files: seq<FileMeta>, lo: Option<UserKey>, hi: Option<UserKey>, b: FileMeta)
    requires forall f :: f in files ==> FileOk(f)
    requires ClosedRange(files, lo, hi) && Overlapping(files, lo, hi) != [] && b in files
    ensures !IsBoundary(b, LargestKey(Overlapping(files, lo, hi)))
  {
    var inputs := Overlapping(files, lo, hi);
    OverlappingMembers(files, lo, hi);
    LargestKeyBounds(inputs);
    var f :| f in inputs && f.largest == LargestKey(inputs);
    SmallestFirst(b);
    SmallestFirst(f);
    assert b.smallest.user == f.largest.user ==> Overlaps(b, lo, hi);
    assert b in inputs ==> !Less(LargestKey(inputs), b.largest);
  }

  /** Selection plus boundary closure leaves out no older data of a user key at the inputs' own level. */
  lemma ChosenIsClosed(v: Version, level: nat, inputs: seq<FileMeta>)
    requires VersionOk(v) && level < |v| && Chosen(v, level, inputs) && NoBoundary(v[level], inputs)
    ensures ClosedAtLevel(v[level], inputs)
  {
    if level == 0 {
      var lo, hi :| ClosedRange(v[0], lo, hi) && inputs == Overlapping(v[0], lo, hi);
      ClosedRangeIsClosed(v[0], lo, hi);
    } else {
      var i, j :| 0 <= i < j <= |v[level]| && inputs == v[level][i..j];
      SliceIsClosed(v[level], i, j);
    }
  }

  lemma ClosedRangeIsClosed(files: seq<FileMeta>, lo: Option<UserKey>, hi: Option<UserKey>)
    requires forall f :: f in files ==> FileOk(f)
    requires ClosedRange(files, lo, hi)
    ensures ClosedAtLevel(files, Overlapping(files, lo, hi))
  {
    OverlappingMembers(files, lo, hi);
    forall g, f, e, x | g in files && !Overlaps(g, lo, hi) && f in files && Overlaps(f, lo, hi)
                        && e in g.entries && x in f.entries
      ensures e.key.user != x.key.user
    {
      EntryBounds(g, e);
      EntryBounds(f, x);
    }
  }

  lemma SliceIsClosed(files: seq<FileMeta>, i: nat, j: nat)
    requires forall f :: f in files ==> FileOk(f)
    requires DisjointLevel(files) && i < j <= |files| && NoBoundary(files, files[i..j])
    ensures ClosedAtLevel(files, files[i..j])
  {
    var inputs := files[i..j];
    assert forall q :: i <= q < j ==> files[q] in inputs;
    forall g, f | g in files && g !in inputs && f in inputs
      ensures NewerThan(g, f)
    {
      var p :| 0 <= p < |files| && files[p] == g;
      var q :| i <= q < j && files[q] == f;
      if p < i {
        SortedLevelNewer(files, p, q);
      } else {
        NoSharedUser(files, i, j, q, p);
      }
    }
  }

  /** Past a boundary-closed run, no file shares a user key with the run. */
  lemma NoSharedUser(files: seq<FileMeta>, i: nat, j: nat, q: nat, p: nat)
    requires forall f :: f in files ==> FileOk(f)
    requires DisjointLevel(files) && i <= q < j <= p < |files| && NoBoundary(files, files[i..j])
    ensures forall e, x :: e in files[p].entries && x in files[q].entries ==> x.key.user < e.key.user
  {
    SliceLargest(files, i, j);
    assert !IsBoundary(files[j], files[j - 1].largest);
    assert Precedes(files[j - 1].largest, files[j].smallest);
    SmallestFirst(files[j]);
    SmallestFirst(files[j - 1]);
    assert p > j ==> Precedes(files[j].largest, files[p].smallest);
    assert q < j - 1 ==> Precedes(files[q].largest, files[j - 1].smallest);
    forall e, x | e in files[p].entries && x in files[q].entries
      ensures x.key.user < e.key.user
    {
      EntryBounds(files[p], e);
      EntryBounds(files[q], x);
    }
  }

  /** Taking every next-level file the inputs touch leaves only files outside the whole compaction. */
  lemma NextLevelOutside(v: Version, level: nat, inputs0: seq<FileMeta>, inputs1: seq<FileMeta>,
                         smallest: InternalKey, largest: InternalKey)
    requires VersionOk(v) && level + 1 < |v|
    requires forall f :: f in inputs0 ==> FileOk(f)
    requires IsRange(inputs0, smallest, largest)
    requires inputs1 == Overlapping(v[level + 1], Some(smallest.user), Some(largest.user))
    ensures OutsideInputs(v[level + 1], inputs1, inputs0 + inputs1)
  {
    var files := v[level + 1];
    OverlappingMembers(files, Some(smallest.user), Some(largest.user));
    forall g | g in files && g !in inputs1
      ensures (forall f :: f in inputs0 + inputs1 ==> Before(f, g))
              || (forall f :: f in inputs0 + inputs1 ==> Before(g, f))
    {
      var p :| 0 <= p < |files| && files[p] == g;
      SmallestFirst(g);
      forall f | f in inputs0 + inputs1
        ensures largest.user < g.smallest.user ==> Before(f, g)
        ensures g.largest.user < smallest.user ==> Before(g, f)
      {
        SmallestFirst(f);
        if f in inputs1 {
          var q :| 0 <= q < |files| && files[q] == f;
          assert p != q;
          assert p < q ==> Precedes(files[p].largest, files[q].smallest);
          assert q < p ==> Precedes(files[q].largest, files[p].smallest);
        }
      }
    }
  }

  /** In a sorted level, what lies between two overlapping files overlaps. */
  lemma OverlapConvex(files: seq<FileMeta>, p: nat, q: nat, r: nat, lo: Option<UserKey>, hi: Option<UserKey>)
    requires DisjointLevel(files) && p < q < r < |files| && FileOk(files[q])
    requires Overlaps(files[p], lo, hi) && Overlaps(files[r], lo, hi)
    ensures Overlaps(files[q], lo, hi)
  {
    SmallestFirst(files[q]);
    assert Precedes(files[p].largest, files[q].smallest) && Precedes(files[q].largest, files[r].smallest);
  }

  lemma {:induction false} OverlappingOfRun(files: seq<FileMeta>, lo: Option<UserKey>, hi: Option<UserKey>, i: nat,
                                            j: nat)
    requires i <= j <= |files|
    requires forall k :: 0 <= k < |files| ==> (Overlaps(files[k], lo, hi) <==> i <= k < j)
    ensures Overlapping(files, lo, hi) == files[i..j]
  {
    hide Overlaps;
    if |files| > 0 {
      var n := |files| - 1;
      var last := if j <= n then j else n;
      var first := if i <= n then i else n;
      OverlappingOfRun(files[..n], lo, hi, first, last);
      FrontSlice(files, i, j, first, last);
    }
  }

  lemma FrontSlice<T>(all: seq<T>, i: nat, j: nat, first: nat, last: nat)
    requires i <= j <= |all| && |all| > 0
    requires first == (if i < |all| then i else |all| - 1) && last == (if j < |all| then j else |all| - 1)
    ensures all[i..j] == all[..|all| - 1][first..last] + if i < j == |all| then [all[|all| - 1]] else []
  {
  }

  /** In a sorted level the overlapping files are neighbours. */
  lemma OverlappingIsSlice(files: seq<FileMeta>, lo: Option<UserKey>, hi: Option<UserKey>)
    returns (i: nat, j: nat)
    requires forall f :: f in files ==> FileOk(f)
    requires DisjointLevel(files) && Overlapping(files, lo, hi) != []
    ensures i < j <= |files| && Overlapping(files, lo, hi) == files[i..j]
  {
    OverlappingMembers(files, lo, hi);
    var first := Overlapping(files, lo, hi)[0];
    assert first in Overlapping(files, lo, hi);
    var p :| 0 <= p < |files| && files[p] == first;
    i := LowestOverlap(files, p, lo, hi);
    j := HighestOverlap(files, p, lo, hi);
    OverlapIsRun(files, i, j, p, lo, hi);
    OverlappingOfRun(files, lo, hi, i, j);
  }

  lemma LowestOverlap(files: seq<FileMeta>, p: nat, lo: Option<UserKey>, hi: Option<UserKey>) returns (i: nat)
    requires p < |files| && Overlaps(files[p], lo, hi)
    ensures i <= p && forall k :: i <= k <= p ==> Overlaps(files[k], lo, hi)
    ensures i > 0 ==> !Overlaps(files[i - 1], lo, hi)
  {
    i := p;
    while i > 0 && Overlaps(files[i - 1], lo, hi)
      invariant 0 <= i <= p && forall k :: i <= k <= p ==> Overlaps(files[k], lo, hi)
    {
      i := i - 1;
    }
  }

  lemma HighestOverlap(files: seq<FileMeta>, p: nat, lo: Option<UserKey>, hi: Option<UserKey>) returns (j: nat)
    requires p < |files| && Overlaps(files[p], lo, hi)
    ensures p < j <= |files| && forall k :: p <= k < j ==> Overlaps(files[k], lo, hi)
    ensures j < |files| ==> !Overlaps(files[j], lo, hi)
  {
    j := p + 1;
    while j < |files| && Overlaps(files[j], lo, hi)
      invariant p < j <= |files| && forall k :: p <= k < j ==> Overlaps(files[k], lo, hi)
    {
      j := j + 1;
    }
  }

  lemma OverlapIsRun(files: seq<FileMeta>, i: nat, j: nat, p: nat, lo: Option<UserKey>, hi: Option<UserKey>)
    requires forall f :: f in files ==> FileOk(f)
    requires DisjointLevel(files) && i <= p < j <= |files|
    requires forall k :: i <= k <= p ==> Overlaps(files[k], lo, hi)
    requires forall k :: p <= k < j ==> Overlaps(files[k], lo, hi)
    requires i > 0 ==> !Overlaps(files[i - 1], lo, hi)
    requires j < |files| ==> !Overlaps(files[j], lo, hi)
    ensures forall k :: 0 <= k < |files| ==> (Overlaps(files[k], lo, hi) <==> i <= k < j)
  {
    forall k | 0 <= k < |files|
      ensures Overlaps(files[k], lo, hi) <==> i <= k < j
    {
      if k < i - 1 && Overlaps(files[k], lo, hi) {
        OverlapConvex(files, k, i - 1, p, lo, hi);
      }
      if k > j && Overlaps(files[k], lo, hi) {
        OverlapConvex(files, p, j, k, lo, hi);
      }
    }
  }

  /** r is the inputs and then boundary file after boundary file until there is none. */
  ghost predicate Closure(files: seq<FileMeta>, inputs: seq<FileMeta>, r: seq<FileMeta>) {
    && inputs != [] && inputs <= r && NoBoundary(files, r)
    && forall k :: |inputs| <= k < |r| ==> BoundaryStep(files, r[..k], r[k])
  }

  /** The range that a search of the level between two user keys ends with. */
  ghost predicate Reach(files: seq<FileMeta>, level: nat, begin: UserKey, end: UserKey, lo: Option<UserKey>,
                        hi: Option<UserKey>) {
    if level == 0 then LeastClosed(files, Some(begin), Some(end), lo, hi) else lo == Some(begin) && hi == Some(end)
  }

  /** The level searched again over the range of these files, and closed. */
  ghost predicate Expansion(v: Version, level: nat, part: seq<FileMeta>, expanded: seq<FileMeta>)
    requires level < |v|
  {
    exists smallest, largest, lo, hi :: IsRange(part, smallest, largest)
      && Reach(v[level], level, smallest.user, largest.user, lo, hi)
      && Closure(v[level], Overlapping(v[level], lo, hi), expanded)
  }

  /** Grow the first inputs if that adds files, stays within the limit and asks for no more files of the next level. */
  ghost predicate Grown(v: Version, level: nat, limit: nat, c0: seq<FileMeta>, c1: seq<FileMeta>,
                        inputs0: seq<FileMeta>, inputs1: seq<FileMeta>)
    requires level + 1 < |v|
  {
    if c1 == [] then inputs0 == c0 && inputs1 == c1
    else
      exists e0 :: Expansion(v, level, c0 + c1, e0)
        && if |e0| > |c0| && TotalFileSize(c1) + TotalFileSize(e0) < limit then
             exists e1 :: NextLevelOverlap(v, level, e0, e1)
               && if |e1| == |c1| then inputs0 == e0 && inputs1 == e1 else inputs0 == c0 && inputs1 == c1
           else inputs0 == c0 && inputs1 == c1
  }

  ghost predicate SetUp(v: Version, level: nat, limit: nat, inputs: seq<FileMeta>,
                        inputs0: seq<FileMeta>, inputs1: seq<FileMeta>)
    requires level + 1 < |v|
  {
    exists c0, c1 :: Closure(v[level], inputs, c0) && NextLevelOverlap(v, level, c0, c1)
      && Grown(v, level, limit, c0, c1, inputs0, inputs1)
  }

  /** SetupOtherInputs: close the inputs at their level, take the next level's overlap, and try to grow the
      inputs without growing the next level's share. */
  method SetupOtherInputs(v: Version, level: nat, inputs: seq<FileMeta>, expandLimit: nat)
    returns (inputs0: seq<FileMeta>, inputs1: seq<FileMeta>)
    requires VersionOk(v) && level + 1 < NUM_LEVELS && Chosen(v, level, inputs)
    ensures Selected(v, level, inputs0, inputs1) && SetUp(v, level, expandLimit, inputs, inputs0, inputs1)
    ensures forall f :: f in inputs ==> f in inputs0
  {
    assert |v| == NUM_LEVELS;
    hide VersionOk, Chosen, NoBoundary, Closure, NextLevelOverlap, Grown;
    ghost var c0, c1;
    inputs0 := ClosedInputs(v, level, inputs);
    inputs1 := NextLevelInputs(v, level, inputs0);
    c0, c1 := inputs0, inputs1;
    inputs0, inputs1 := Grow(v, level, inputs0, inputs1, expandLimit);
  }

  /** The second half: the attempt to grow. */
  method Grow(v: Version, level: nat, c0: seq<FileMeta>, c1: seq<FileMeta>, expandLimit: nat)
    returns (inputs0: seq<FileMeta>, inputs1: seq<FileMeta>)
    requires VersionOk(v) && level + 1 < NUM_LEVELS && Selected(v, level, c0, c1)
    ensures Selected(v, level, inputs0, inputs1) && Grown(v, level, expandLimit, c0, c1, inputs0, inputs1)
    ensures forall f :: f in c0 ==> f in inputs0
  {
    assert |v| == NUM_LEVELS;
    SelectedParts(v, level, c0, c1);
    hide *;
    if c1 == [] {
      GrownNothing(v, level, expandLimit, c0);
      return c0, c1;
    }
    var expanded0 := ExpandedInputs(v, level, c0, c1);
    if |expanded0| > |c0| && TotalFileSize(c1) + TotalFileSize(expanded0) < expandLimit {
      var expanded1 := NextLevelInputs(v, level, expanded0);
      GrownTried(v, level, expandLimit, c0, c1, expanded0, expanded1);
      if |expanded1| == |c1| {
        PartsSelected(v, level, expanded0, expanded1);
        return expanded0, expanded1;
      }
    } else {
      GrownNot(v, level, expandLimit, c0, c1, expanded0);
    }
    return c0, c1;
  }

  lemma SelectedParts(v: Version, level: nat, inputs0: seq<FileMeta>, inputs1: seq<FileMeta>)
    requires level + 1 < |v| && Selected(v, level, inputs0, inputs1)
    ensures Chosen(v, level, inputs0) && inputs0 != []
  {
  }

  lemma PartsSelected(v: Version, level: nat, inputs0: seq<FileMeta>, inputs1: seq<FileMeta>)
    requires level + 1 < |v| && Chosen(v, level, inputs0) && inputs0 != []
    requires NoBoundary(v[level], inputs0) && NextLevelOverlap(v, level, inputs0, inputs1)
    ensures Selected(v, level, inputs0, inputs1)
  {
  }

  lemma GrownNothing(v: Version, level: nat, limit: nat, c0: seq<FileMeta>)
    requires level + 1 < |v|
    ensures Grown(v, level, limit, c0, [], c0, [])
  {
  }

  lemma GrownNot(v: Version, level: nat, limit: nat, c0: seq<FileMeta>, c1: seq<FileMeta>, e0: seq<FileMeta>)
    requires level + 1 < |v| && c1 != [] && Expansion(v, level, c0 + c1, e0)
    requires !(|e0| > |c0| && TotalFileSize(c1) + TotalFileSize(e0) < limit)
    ensures Grown(v, level, limit, c0, c1, c0, c1)
  {
    hide Expansion, NextLevelOverlap, TotalFileSize;
  }

  lemma GrownTried(v: Version, level: nat, limit: nat, c0: seq<FileMeta>, c1: seq<FileMeta>,
                   e0: seq<FileMeta>, e1: seq<FileMeta>)
    requires level + 1 < |v| && c1 != [] && Expansion(v, level, c0 + c1, e0) && NextLevelOverlap(v, level, e0, e1)
    requires |e0| > |c0| && TotalFileSize(c1) + TotalFileSize(e0) < limit
    ensures if |e1| == |c1| then Grown(v, level, limit, c0, c1, e0, e1) else Grown(v, level, limit, c0, c1, c0, c1)
  {
    hide Expansion, NextLevelOverlap, TotalFileSize;
  }

  method ClosedInputs(v: Version, level: nat, inputs: seq<FileMeta>) returns (closed: seq<FileMeta>)
    requires VersionOk(v) && level < |v| && Chosen(v, level, inputs)
    ensures Chosen(v, level, closed) && closed != [] && NoBoundary(v[level], closed)
    ensures Closure(v[level], inputs, closed)
    ensures forall f :: f in inputs ==> f in closed
  {
    closed := AddBoundaryInputs(v[level], inputs);
    ClosedIsChosen(v, level, inputs, closed);
  }

  /** The files a compaction works on: boundary-closed at their level, with the whole overlap one level down. */
  ghost predicate Selected(v: Version, level: nat, inputs0: seq<FileMeta>, inputs1: seq<FileMeta>)
    requires level + 1 < |v|
  {
    Chosen(v, level, inputs0) && NoBoundary(v[level], inputs0) && NextLevelOverlap(v, level, inputs0, inputs1)
  }

  ghost predicate NextLevelOverlap(v: Version, level: nat, inputs0: seq<FileMeta>, inputs1: seq<FileMeta>)
    requires level + 1 < |v|
  {
    exists smallest, largest :: IsRange(inputs0, smallest, largest)
      && inputs1 == Overlapping(v[level + 1], Some(smallest.user), Some(largest.user))
  }

  method NextLevelInputs(v: Version, level: nat, inputs0: seq<FileMeta>) returns (inputs1: seq<FileMeta>)
    requires level + 1 < |v| && inputs0 != []
    ensures NextLevelOverlap(v, level, inputs0, inputs1)
  {
    var smallest, largest := GetRange(inputs0);
    ghost var lo, hi;
    inputs1, lo, hi := GetOverlappingInputs(v[level + 1], false, Some(smallest), Some(largest));
  }

  /** The inputs' level, searched again over everything the compaction covers so far. */
  method ExpandedInputs(v: Version, level: nat, inputs0: seq<FileMeta>, inputs1: seq<FileMeta>)
    returns (expanded0: seq<FileMeta>)
    requires VersionOk(v) && level < |v| && Chosen(v, level, inputs0)
    ensures Chosen(v, level, expanded0) && expanded0 != [] && NoBoundary(v[level], expanded0)
    ensures Expansion(v, level, inputs0 + inputs1, expanded0)
    ensures forall f :: f in inputs0 ==> f in expanded0
  {
    var start, limit := GetRange(inputs0 + inputs1);
    var overlap0, lo, hi := GetOverlappingInputs(v[level], level == 0, Some(start), Some(limit));
    RangeCovers(v, level, inputs0, inputs1, start, limit, lo, hi);
    OverlapIsChosen(v, level, overlap0, lo, hi);
    expanded0 := ClosedInputs(v, level, overlap0);
  }

  lemma ClosedIsChosen(v: Version, level: nat, inputs: seq<FileMeta>, r: seq<FileMeta>)
    requires VersionOk(v) && level < |v| && Chosen(v, level, inputs) && inputs <= r
    requires forall k :: |inputs| <= k < |r| ==> BoundaryStep(v[level], r[..k], r[k])
    ensures Chosen(v, level, r)
  {
    if level == 0 {
      var lo, hi :| ClosedRange(v[0], lo, hi) && inputs == Overlapping(v[0], lo, hi);
      NoBoundaryAtLevel0(v[0], lo, hi, r);
    } else {
      var i, j :| 0 <= i < j <= |v[level]| && inputs == v[level][i..j];
      var j' := BoundaryKeepsSlice(v[level], i, j, r);
    }
  }

  lemma OverlapIsChosen(v: Version, level: nat, r: seq<FileMeta>, lo: Option<UserKey>, hi: Option<UserKey>)
    requires VersionOk(v) && level < |v| && r == Overlapping(v[level], lo, hi) && r != []
    requires level == 0 ==> ClosedRange(v[0], lo, hi)
    ensures Chosen(v, level, r)
  {
    if level > 0 {
      var i, j := OverlappingIsSlice(v[level], lo, hi);
    }
  }

  lemma RangeCovers(v: Version, level: nat, inputs0: seq<FileMeta>, inputs1: seq<FileMeta>,
                    start: InternalKey, limit: InternalKey, lo: Option<UserKey>, hi: Option<UserKey>)
    requires VersionOk(v) && level < |v| && Chosen(v, level, inputs0)
    requires IsRange(inputs0 + inputs1, start, limit)
    requires Within(Some(start.user), Some(limit.user), lo, hi)
    ensures forall f :: f in inputs0 ==> f in Overlapping(v[level], lo, hi)
    ensures Overlapping(v[level], lo, hi) != []
  {
    OverlappingMembers(v[level], lo, hi);
    ChosenInLevel(v, level, inputs0);
    forall f | f in inputs0
      ensures f in Overlapping(v[level], lo, hi)
    {
      assert f in v[level];
      assert FileOk(f);
      SmallestFirst(f);
      assert f in inputs0 + inputs1;
    }
    assert inputs0[0] in inputs0;
  }

  lemma ChosenInLevel(v: Version, level: nat, inputs: seq<FileMeta>)
    requires level < |v| && Chosen(v, level, inputs)
    ensures forall f :: f in inputs ==> f in v[level]
  {
    if level == 0 {
      var lo, hi :| ClosedRange(v[0], lo, hi) && inputs == Overlapping(v[0], lo, hi);
      OverlappingMembers(v[0], lo, hi);
    }
  }

  // ---- what growing is worth ----

  /** A wider range touches no fewer files; if it touches no more, they are the same. */
  lemma {:induction false} WiderOverlap(files: seq<FileMeta>, lo: Option<UserKey>, hi: Option<UserKey>,
                                        lo': Option<UserKey>, hi': Option<UserKey>)
    requires Within(lo, hi, lo', hi')
    ensures |Overlapping(files, lo, hi)| <= |Overlapping(files, lo', hi')|
    ensures |Overlapping(files, lo, hi)| == |Overlapping(files, lo', hi')| ==>
              Overlapping(files, lo, hi) == Overlapping(files, lo', hi')
  {
    if |files| > 0 {
      WiderOverlap(files[..|files| - 1], lo, hi, lo', hi');
    }
  }

  lemma RangeWidens(part: seq<FileMeta>, all: seq<FileMeta>, s: InternalKey, l: InternalKey, s': InternalKey,
                    l': InternalKey)
    requires IsRange(part, s, l) && IsRange(all, s', l') && forall f :: f in part ==> f in all
    ensures Within(Some(s.user), Some(l.user), Some(s'.user), Some(l'.user))
  {
  }

  lemma ExpansionCovers(v: Version, level: nat, c0: seq<FileMeta>, c1: seq<FileMeta>, e0: seq<FileMeta>)
    requires VersionOk(v) && level < |v| && Chosen(v, level, c0) && Expansion(v, level, c0 + c1, e0)
    ensures forall f :: f in c0 ==> f in e0
  {
    hide VersionOk, Chosen, IsRange, NoBoundary, LeastClosed;
    var smallest, largest, lo, hi :| IsRange(c0 + c1, smallest, largest)
      && Reach(v[level], level, smallest.user, largest.user, lo, hi)
      && Closure(v[level], Overlapping(v[level], lo, hi), e0);
    ReachIsAround(v[level], level, smallest.user, largest.user, lo, hi);
    RangeCovers(v, level, c0, c1, smallest, largest, lo, hi);
  }

  lemma ReachIsAround(files: seq<FileMeta>, level: nat, begin: UserKey, end: UserKey, lo: Option<UserKey>,
                      hi: Option<UserKey>)
    requires Reach(files, level, begin, end, lo, hi)
    ensures Within(Some(begin), Some(end), lo, hi)
  {
  }

  /** Growing keeps the first inputs and the next level's share. It is done only if it adds files and all inputs
      together stay below the limit; and it is left only if there is no next level's share, or it would add nothing,
      go past the limit, or draw in more of the next level. */
  lemma GrowthIs(v: Version, level: nat, limit: nat, c0: seq<FileMeta>, c1: seq<FileMeta>,
                 inputs0: seq<FileMeta>, inputs1: seq<FileMeta>)
    requires VersionOk(v) && level + 1 < |v| && Selected(v, level, c0, c1)
    requires Grown(v, level, limit, c0, c1, inputs0, inputs1)
    ensures inputs1 == c1 && forall f :: f in c0 ==> f in inputs0
    ensures inputs0 != c0 ==>
              c1 != [] && |inputs0| > |c0| && TotalFileSize(inputs0) + TotalFileSize(inputs1) < limit
    ensures inputs0 == c0 && c1 != [] ==>
              exists e0 :: Expansion(v, level, c0 + c1, e0)
                && (|e0| <= |c0| || TotalFileSize(e0) + TotalFileSize(c1) >= limit
                    || !NextLevelOverlap(v, level, e0, c1))
  {
    hide VersionOk, Chosen, NoBoundary, Expansion, NextLevelOverlap, TotalFileSize;
    if c1 != [] {
      var e0 :| Expansion(v, level, c0 + c1, e0)
        && if |e0| > |c0| && TotalFileSize(c1) + TotalFileSize(e0) < limit then
             exists e1 :: NextLevelOverlap(v, level, e0, e1)
               && if |e1| == |c1| then inputs0 == e0 && inputs1 == e1 else inputs0 == c0 && inputs1 == c1
           else inputs0 == c0 && inputs1 == c1;
      ExpansionCovers(v, level, c0, c1, e0);
      if |e0| > |c0| && TotalFileSize(c1) + TotalFileSize(e0) < limit {
        var e1 :| NextLevelOverlap(v, level, e0, e1)
          && if |e1| == |c1| then inputs0 == e0 && inputs1 == e1 else inputs0 == c0 && inputs1 == c1;
        SharesAre(v, level, c0, c1, e0, e1);
      }
    }
  }

  lemma SharesAre(v: Version, level: nat, c0: seq<FileMeta>, c1: seq<FileMeta>, e0: seq<FileMeta>, e1: seq<FileMeta>)
    requires level + 1 < |v| && NextLevelOverlap(v, level, c0, c1) && NextLevelOverlap(v, level, e0, e1)
    requires forall f :: f in c0 ==> f in e0
    ensures |e1| == |c1| ==> e1 == c1
    ensures NextLevelOverlap(v, level, e0, c1) ==> |e1| == |c1|
  {
    hide IsRange, Within;
    var s, l :| IsRange(c0, s, l) && c1 == Overlapping(v[level + 1], Some(s.user), Some(l.user));
    var s', l' :| IsRange(e0, s', l') && e1 == Overlapping(v[level + 1], Some(s'.user), Some(l'.user));
    RangeWidens(c0, e0, s, l, s', l');
    WiderOverlap(v[level + 1], Some(s.user), Some(l.user), Some(s'.user), Some(l'.user));
    if NextLevelOverlap(v, level, e0, c1) {
      var s2, l2 :| IsRange(e0, s2, l2) && c1 == Overlapping(v[level + 1], Some(s2.user), Some(l2.user));
      RangeWidens(e0, e0, s', l', s2, l2);
      RangeWidens(e0, e0, s2, l2, s', l');
      WiderOverlap(v[level + 1], Some(s2.user), Some(l2.user), Some(s'.user), Some(l'.user));
      WiderOverlap(v[level + 1], Some(s'.user), Some(l'.user), Some(s2.user), Some(l2.user));
    }
  }

  /** CompactRange: below level 0 the overlap is cut once it holds enough bytes. */
  method CompactRangeInputs(v: Version, level: nat, begin: Option<InternalKey>, end: Option<InternalKey>, limit: nat)
    returns (inputs: seq<FileMeta>)
    requires VersionOk(v) && level + 1 < NUM_LEVELS
    ensures inputs != [] ==> Chosen(v, level, inputs)
    ensures inputs == [] ==> forall f :: f in v[level] ==> !Overlaps(f, UserOf(begin), UserOf(end))
    ensures level == 0 ==>
              exists lo, hi ::
                LeastClosed(v[0], UserOf(begin), UserOf(end), lo, hi) && inputs == Overlapping(v[0], lo, hi)
    ensures level > 0 ==> CutTo(inputs, Overlapping(v[level], UserOf(begin), UserOf(end)), limit)
  {
    ghost var lo, hi;
    inputs, lo, hi := GetOverlappingInputs(v[level], level == 0, begin, end);
    OverlappingMembers(v[level], lo, hi);
    if inputs == [] {
      forall f | f in v[level]
        ensures !Overlaps(f, UserOf(begin), UserOf(end))
      {
        assert f !in inputs;
      }
      return;
    }
    OverlapIsChosen(v, level, inputs, lo, hi);
    if level > 0 {
      var n := EnoughBytes(inputs, limit);
      PrefixOfSlice(v[level], inputs, n);
      inputs := inputs[..n];
    }
  }

  /** The shortest nonempty front of the files that reaches the limit, or all of them. */
  predicate CutTo(part: seq<FileMeta>, files: seq<FileMeta>, limit: nat) {
    && part <= files && (files != [] ==> part != [])
    && (|part| < |files| ==> TotalFileSize(part) >= limit)
    && forall k :: 0 < k < |part| ==> TotalFileSize(files[..k]) < limit
  }

  method EnoughBytes(inputs: seq<FileMeta>, limit: nat) returns (n: nat)
    requires inputs != []
    ensures 0 < n <= |inputs| && CutTo(inputs[..n], inputs, limit)
    ensures n < |inputs| ==> TotalFileSize(inputs[..n]) >= limit
    ensures forall k :: 0 < k < n ==> TotalFileSize(inputs[..k]) < limit
  {
    var total := 0;
    for i := 0 to |inputs|
      invariant total == TotalFileSize(inputs[..i])
      invariant forall k :: 0 < k <= i ==> TotalFileSize(inputs[..k]) < limit
    {
      assert inputs[..i + 1][..i] == inputs[..i];
      total := total + inputs[i].size;
      if total >= limit {
        return i + 1;
      }
    }
    return |inputs|;
  }

  lemma PrefixOfSlice(files: seq<FileMeta>, part: seq<FileMeta>, n: nat)
    requires Slice(files, part) && 0 < n <= |part|
    ensures Slice(files, part[..n])
  {
    var p, q :| 0 <= p < q <= |files| && part == files[p..q];
    assert part[..n] == files[p..p + n];
  }

  // ---- where a flushed memtable goes ----

  predicate OverlapsLevel(files: seq<FileMeta>, lo: UserKey, hi: UserKey) {
    exists i :: 0 <= i < |files| && Overlaps(files[i], Some(lo), Some(hi))
  }

  const MAX_MEM_COMPACT_LEVEL: nat := 2

  /** A level above the chosen one that may take the flush, and whose next level may too. */
  predicate MayPushPast(v: Version, level: nat, lo: UserKey, hi: UserKey, grandparentLimit: nat)
    requires level + 1 < |v|
  {
    && !OverlapsLevel(v[level + 1], lo, hi)
    && (level + 2 < |v| ==> TotalFileSize(Overlapping(v[level + 2], Some(lo), Some(hi))) <= grandparentLimit)
  }

  /** The level a flush of this range goes to: as deep as two levels, past no overlapping file, and no less deep than
      it may. */
  predicate Picked(v: Version, lo: UserKey, hi: UserKey, grandparentLimit: nat, level: nat)
    requires |v| == NUM_LEVELS
  {
    && level <= MAX_MEM_COMPACT_LEVEL
    && (level > 0 ==> forall l :: 0 <= l <= level ==> !OverlapsLevel(v[l], lo, hi))
    && (level > 0 ==> forall l :: 0 <= l < level ==> MayPushPast(v, l, lo, hi, grandparentLimit))
    && (((level == 0 && !OverlapsLevel(v[0], lo, hi)) || 0 < level < MAX_MEM_COMPACT_LEVEL) ==>
          !MayPushPast(v, level, lo, hi, grandparentLimit))
  }

  lemma ApartFromLevel(files: seq<FileMeta>, lo: UserKey, hi: UserKey)
    ensures OverlapsLevel(files, lo, hi) <==> exists f :: f in files && lo <= f.largest.user && f.smallest.user <= hi
  {
    if f :| f in files && lo <= f.largest.user && f.smallest.user <= hi {
      var i :| 0 <= i < |files| && files[i] == f;
      assert Overlaps(files[i], Some(lo), Some(hi));
    }
  }

  /** The chosen level, level by level: what a flush has been pushed past, and what stopped it. */
  lemma PickedIs(v: Version, lo: UserKey, hi: UserKey, grandparentLimit: nat, level: nat)
    requires |v| == NUM_LEVELS && Picked(v, lo, hi, grandparentLimit, level)
    ensures level <= 2 && (level > 0 ==> forall f :: f in v[0] ==> f.largest.user < lo || hi < f.smallest.user)
    ensures level >= 1 ==>
              && (forall f :: f in v[1] ==> f.largest.user < lo || hi < f.smallest.user)
              && TotalFileSize(Overlapping(v[2], Some(lo), Some(hi))) <= grandparentLimit
    ensures level == 2 ==>
              && (forall f :: f in v[2] ==> f.largest.user < lo || hi < f.smallest.user)
              && TotalFileSize(Overlapping(v[3], Some(lo), Some(hi))) <= grandparentLimit
    ensures level == 0 && (forall f :: f in v[0] ==> f.largest.user < lo || hi < f.smallest.user) ==>
              || (exists f :: f in v[1] && lo <= f.largest.user && f.smallest.user <= hi)
              || TotalFileSize(Overlapping(v[2], Some(lo), Some(hi))) > grandparentLimit
    ensures level == 1 ==>
              || (exists f :: f in v[2] && lo <= f.largest.user && f.smallest.user <= hi)
              || TotalFileSize(Overlapping(v[3], Some(lo), Some(hi))) > grandparentLimit
  {
    hide OverlapsLevel, Overlapping, TotalFileSize;
    ApartFromLevel(v[0], lo, hi);
    ApartFromLevel(v[1], lo, hi);
    ApartFromLevel(v[2], lo, hi);
    assert level > 0 ==> MayPushPast(v, 0, lo, hi, grandparentLimit);
    assert level > 1 ==> MayPushPast(v, 1, lo, hi, grandparentLimit);
  }

  /** PickLevelForMemTableOutput. */
  method PickLevelForMemTableOutput(v: Version, lo: UserKey, hi: UserKey, grandparentLimit: nat) returns (level: nat)
    requires VersionOk(v)
    ensures Picked(v, lo, hi, grandparentLimit, level)
    ensures level <= 2 && (level > 0 ==> forall f :: f in v[0] ==> f.largest.user < lo || hi < f.smallest.user)
    ensures level >= 1 ==>
              && (forall f :: f in v[1] ==> f.largest.user < lo || hi < f.smallest.user)
              && TotalFileSize(Overlapping(v[2], Some(lo), Some(hi))) <= grandparentLimit
    ensures level == 2 ==>
              && (forall f :: f in v[2] ==> f.largest.user < lo || hi < f.smallest.user)
              && TotalFileSize(Overlapping(v[3], Some(lo), Some(hi))) <= grandparentLimit
    ensures level == 0 && (forall f :: f in v[0] ==> f.largest.user < lo || hi < f.smallest.user) ==>
              || (exists f :: f in v[1] && lo <= f.largest.user && f.smallest.user <= hi)
              || TotalFileSize(Overlapping(v[2], Some(lo), Some(hi))) > grandparentLimit
    ensures level == 1 ==>
              || (exists f :: f in v[2] && lo <= f.largest.user && f.smallest.user <= hi)
              || TotalFileSize(Overlapping(v[3], Some(lo), Some(hi))) > grandparentLimit
  {
    assert |v| == NUM_LEVELS && FilesOk(v);
    hide VersionOk, Overlapping, TotalFileSize, MayPushPast, Picked;
    level := 0;
    var overlap := SomeFileOverlapsRange(false, v[0], Some(lo), Some(hi));
    if !overlap {
      while level < MAX_MEM_COMPACT_LEVEL
        invariant level <= MAX_MEM_COMPACT_LEVEL
        invariant forall l :: 0 <= l <= level ==> !OverlapsLevel(v[l], lo, hi)
        invariant forall l :: 0 <= l < level ==> MayPushPast(v, l, lo, hi, grandparentLimit)
      {
        PushedPast(v, level, lo, hi, grandparentLimit);
        var may := PushesPast(v, level, lo, hi, grandparentLimit);
        if !may {
          break;
        }
        level := level + 1;
      }
    }
    assert Picked(v, lo, hi, grandparentLimit, level) by {
      PickedWhen(v, lo, hi, grandparentLimit, level);
    }
    PickedIs(v, lo, hi, grandparentLimit, level);
  }

  lemma PushedPast(v: Version, level: nat, lo: UserKey, hi: UserKey, grandparentLimit: nat)
    requires level + 1 < |v|
    ensures MayPushPast(v, level, lo, hi, grandparentLimit) ==> !OverlapsLevel(v[level + 1], lo, hi)
  {
  }

  lemma PickedWhen(v: Version, lo: UserKey, hi: UserKey, grandparentLimit: nat, level: nat)
    requires |v| == NUM_LEVELS && level <= MAX_MEM_COMPACT_LEVEL
    requires level > 0 ==> forall l :: 0 <= l <= level ==> !OverlapsLevel(v[l], lo, hi)
    requires forall l :: 0 <= l < level ==> MayPushPast(v, l, lo, hi, grandparentLimit)
    requires || OverlapsLevel(v[0], lo, hi) || level == MAX_MEM_COMPACT_LEVEL
             || !MayPushPast(v, level, lo, hi, grandparentLimit)
    ensures Picked(v, lo, hi, grandparentLimit, level)
  {
    hide OverlapsLevel, MayPushPast;
  }

  /** One turn of the loop: the checks before the level is raised. */
  method PushesPast(v: Version, level: nat, lo: UserKey, hi: UserKey, grandparentLimit: nat) returns (may: bool)
    requires VersionOk(v) && level + 1 < |v|
    ensures may == MayPushPast(v, level, lo, hi, grandparentLimit)
  {
    var overlap := SomeFileOverlapsRange(true, v[level + 1], Some(lo), Some(hi));
    if overlap {
      return false;
    }
    if level + 2 < NUM_LEVELS {
      var overlaps, l, h := GetOverlappingInputs(v[level + 2], false,
        Some(InternalKey(lo, MAX_SEQUENCE, Value)), Some(InternalKey(hi, 0, Deletion)));
      if TotalFileSize(overlaps) > grandparentLimit {
        return false;
      }
    }
    may := true;
  }
}
