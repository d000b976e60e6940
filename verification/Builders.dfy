/** Version edits, the builder that applies them, and recovery from the manifest. */
module Builders {
  import opened InternalKeys
  import opened Versions

  /** deleted holds (level, file number) pairs; added holds the new files level by level, in edit order. */
  datatype Edit = Edit(deleted: set<(nat, nat)>, added: seq<(nat, FileMeta)>)

  /** Smallest key first, ties broken by file number. */
  predicate BySmallest(f: FileMeta, g: FileMeta) {
    Less(f.smallest, g.smallest) || (!Less(g.smallest, f.smallest) && f.number < g.number)
  }

  predicate Sorted(files: seq<FileMeta>) {
    forall i, j :: 0 <= i < j < |files| ==> BySmallest(files[i], files[j])
  }

  /** An ordered-set insertion: an equivalent file already present stays. */
  function InsertFile(files: seq<FileMeta>, f: FileMeta): seq<FileMeta> {
    if |files| == 0 || BySmallest(f, files[0]) then [f] + files
    else if !BySmallest(files[0], f) then files
    else [files[0]] + InsertFile(files[1..], f)
  }

  function DeletedAt(edit: Edit, level: nat): set<nat> {
    set d | d in edit.deleted && d.0 == level :: d.1
  }

  /** The set of deleted numbers after the edit's additions have erased their own numbers. */
  function DeletedAfter(deleted: set<nat>, added: seq<(nat, FileMeta)>, level: nat): set<nat> {
    if |added| == 0 then deleted
    else
      var last := added[|added| - 1];
      var before := DeletedAfter(deleted, added[..|added| - 1], level);
      if last.0 == level then before - {last.1.number} else before
  }

  function AddedAfter(files: seq<FileMeta>, added: seq<(nat, FileMeta)>, level: nat): seq<FileMeta> {
    if |added| == 0 then files
    else
      var last := added[|added| - 1];
      var before := AddedAfter(files, added[..|added| - 1], level);
      if last.0 == level then InsertFile(before, last.1) else before
  }

  function MaybeAdd(f: FileMeta, deleted: set<nat>): seq<FileMeta> {
    if f.number in deleted then [] else [f]
  }

  /** The merge of the base files and the added files, without the deleted ones. */
  function SaveLevel(base: seq<FileMeta>, added: seq<FileMeta>, deleted: set<nat>): seq<FileMeta>
    decreases |base| + |added|
  {
    if |base| > 0 && (|added| == 0 || !BySmallest(added[0], base[0])) then
      MaybeAdd(base[0], deleted) + SaveLevel(base[1..], added, deleted)
    else if |added| > 0 then
      MaybeAdd(added[0], deleted) + SaveLevel(base, added[1..], deleted)
    else []
  }

  class Builder {
    const base: Version
    /** Per level: numbers to leave out, and files to merge in. */
    var deleted: seq<set<nat>>
    var added: seq<seq<FileMeta>>

    ghost predicate Valid()
      reads this
    {
      |base| == |deleted| == |added| == NUM_LEVELS
    }

    constructor (base: Version)
      requires |base| == NUM_LEVELS
      ensures Valid() && this.base == base
      ensures forall l :: 0 <= l < NUM_LEVELS ==> deleted[l] == {} && added[l] == []
    {
      this.base := base;
      deleted := seq(NUM_LEVELS, _ => {});
      added := seq(NUM_LEVELS, _ => []);
    }

    /** Records the deletions first, then the additions, which erase their own numbers from the deletions. */
    method Apply(edit: Edit)
      requires Valid() && forall d :: d in edit.deleted ==> d.0 < NUM_LEVELS
      requires forall a :: a in edit.added ==> a.0 < NUM_LEVELS
      modifies this
      ensures Valid()
      ensures forall l :: 0 <= l < NUM_LEVELS ==>
                deleted[l] == DeletedAfter(old(deleted[l]) + DeletedAt(edit, l), edit.added, l)
      ensures forall l :: 0 <= l < NUM_LEVELS ==> added[l] == AddedAfter(old(added[l]), edit.added, l)
    {
      deleted := seq(NUM_LEVELS, l requires 0 <= l < NUM_LEVELS && |deleted| == NUM_LEVELS reads this =>
        deleted[l] + DeletedAt(edit, l));
      for i := 0 to |edit.added|
        invariant Valid()
        invariant forall l :: 0 <= l < NUM_LEVELS ==>
                    deleted[l] == DeletedAfter(old(deleted[l]) + DeletedAt(edit, l), edit.added[..i], l)
        invariant forall l :: 0 <= l < NUM_LEVELS ==> added[l] == AddedAfter(old(added[l]), edit.added[..i], l)
      {
        var level, f := edit.added[i].0, edit.added[i].1;
        assert edit.added[i] in edit.added;
        assert edit.added[..i + 1][..i] == edit.added[..i];
        deleted := deleted[level := deleted[level] - {f.number}];
        added := added[level := InsertFile(added[level], f)];
      }
      assert edit.added[..|edit.added|] == edit.added;
    }

    /** The new version: per level, a merge loop over the two sorted lists. */
    method SaveTo() returns (v: Version)
      requires Valid()
      ensures |v| == NUM_LEVELS
      ensures forall l :: 0 <= l < NUM_LEVELS ==> v[l] == SaveLevel(base[l], added[l], deleted[l])
    {
      v := [];
      for level := 0 to NUM_LEVELS
        invariant |v| == level
        invariant forall l :: 0 <= l < level ==> v[l] == SaveLevel(base[l], added[l], deleted[l])
      {
        var files := MergeLevel(base[level], added[level], deleted[level]);
        v := v + [files];
      }
    }
  }

  method MergeLevel(base: seq<FileMeta>, added: seq<FileMeta>, deleted: set<nat>) returns (files: seq<FileMeta>)
    ensures files == SaveLevel(base, added, deleted)
  {
    files := [];
    var b := 0;
    for a := 0 to |added|
      invariant 0 <= b <= |base|
      invariant SaveLevel(base, added, deleted) == files + SaveLevel(base[b..], added[a..], deleted)
    {
      while b < |base| && !BySmallest(added[a], base[b])
        invariant 0 <= b <= |base|
        invariant SaveLevel(base, added, deleted) == files + SaveLevel(base[b..], added[a..], deleted)
      {
        TakeBase(files, base, added, deleted, b, a);
        files := files + MaybeAdd(base[b], deleted);
        b := b + 1;
      }
      TakeAdded(files, base, added, deleted, b, a);
      files := files + MaybeAdd(added[a], deleted);
    }
    assert added[|added|..] == [];
    while b < |base|
      invariant 0 <= b <= |base|
      invariant SaveLevel(base, added, deleted) == files + SaveLevel(base[b..], added[|added|..], deleted)
    {
      TakeBase(files, base, added, deleted, b, |added|);
      files := files + MaybeAdd(base[b], deleted);
      b := b + 1;
    }
    assert base[|base|..] == [];
  }

  lemma TakeBase(files: seq<FileMeta>, base: seq<FileMeta>, added: seq<FileMeta>, deleted: set<nat>, b: nat, a: nat)
    requires b < |base| && a <= |added| && (a < |added| ==> !BySmallest(added[a], base[b]))
    ensures files + SaveLevel(base[b..], added[a..], deleted)
            == files + MaybeAdd(base[b], deleted) + SaveLevel(base[b + 1..], added[a..], deleted)
  {
    assert base[b..][1..] == base[b + 1..];
  }

  lemma TakeAdded(files: seq<FileMeta>, base: seq<FileMeta>, added: seq<FileMeta>, deleted: set<nat>, b: nat, a: nat)
    requires b <= |base| && a < |added| && (b < |base| ==> BySmallest(added[a], base[b]))
    ensures files + SaveLevel(base[b..], added[a..], deleted)
            == files + MaybeAdd(added[a], deleted) + SaveLevel(base[b..], added[a + 1..], deleted)
  {
    assert added[a..][1..] == added[a + 1..];
  }

  // ---- the level as a set of files ----

  lemma {:induction false} SaveMembers(base: seq<FileMeta>, added: seq<FileMeta>, deleted: set<nat>, f: FileMeta)
    ensures f in SaveLevel(base, added, deleted) <==> (f in base || f in added) && f.number !in deleted
    decreases |base| + |added|
  {
    if |base| > 0 && (|added| == 0 || !BySmallest(added[0], base[0])) {
      SaveMembers(base[1..], added, deleted, f);
      assert f in base <==> f == base[0] || f in base[1..];
    } else if |added| > 0 {
      SaveMembers(base, added[1..], deleted, f);
      assert f in added <==> f == added[0] || f in added[1..];
    }
  }

  /** Merging lists sorted by smallest key gives a sorted list, if no file is on both. */
  lemma {:induction false} SaveSorted(base: seq<FileMeta>, added: seq<FileMeta>, deleted: set<nat>)
    requires Sorted(base) && Sorted(added)
    requires forall f, g :: f in base && f.number !in deleted && g in added ==> f.number != g.number
    ensures Sorted(SaveLevel(base, added, deleted))
    decreases |base| + |added|
  {
    if |base| > 0 && (|added| == 0 || !BySmallest(added[0], base[0])) {
      var rest := SaveLevel(base[1..], added, deleted);
      SaveSorted(base[1..], added, deleted);
      if base[0].number !in deleted {
        forall k | 0 <= k < |rest|
          ensures BySmallest(base[0], rest[k])
        {
          SaveMembers(base[1..], added, deleted, rest[k]);
          assert rest[k] in added ==> added[0] == rest[k] || BySmallest(added[0], rest[k]);
          assert base[0] in base;
        }
      }
    } else if |added| > 0 {
      var rest := SaveLevel(base, added[1..], deleted);
      SaveSorted(base, added[1..], deleted);
      forall k | 0 <= k < |rest|
        ensures BySmallest(added[0], rest[k])
      {
        SaveMembers(base, added[1..], deleted, rest[k]);
        assert rest[k] in base ==> base[0] == rest[k] || BySmallest(base[0], rest[k]);
      }
    }
  }

  /** That is: ascending by smallest key, and by number where two files start with the same key. */
  lemma SavedOrder(base: seq<FileMeta>, added: seq<FileMeta>, deleted: set<nat>, i: nat, j: nat)
    requires Sorted(base) && Sorted(added)
    requires forall f, g :: f in base && f.number !in deleted && g in added ==> f.number != g.number
    requires i < j < |SaveLevel(base, added, deleted)|
    ensures var r := SaveLevel(base, added, deleted);
            && !Less(r[j].smallest, r[i].smallest)
            && (Less(r[i].smallest, r[j].smallest) || r[i].number < r[j].number)
  {
    hide SaveLevel;
    SaveSorted(base, added, deleted);
    var r := SaveLevel(base, added, deleted);
    assert BySmallest(r[i], r[j]);
  }

  lemma {:induction false} InsertMembers(files: seq<FileMeta>, f: FileMeta)
    requires Sorted(files)
    ensures Sorted(InsertFile(files, f))
    ensures forall g :: g in InsertFile(files, f) ==> g == f || g in files
    ensures forall g :: g in files ==> g in InsertFile(files, f)
    ensures (forall g :: g in files ==> g.number != f.number) ==> f in InsertFile(files, f)
  {
    if |files| > 0 && !BySmallest(f, files[0]) && BySmallest(files[0], f) {
      InsertMembers(files[1..], f);
      var rest := InsertFile(files[1..], f);
      assert forall g :: g in files <==> g == files[0] || g in files[1..];
      forall k | 0 <= k < |rest|
        ensures BySmallest(files[0], rest[k])
      {
        assert rest[k] in rest;
      }
    } else if |files| > 0 && !BySmallest(f, files[0]) {
      assert f.number == files[0].number;
    }
  }

  /** Two sorted lists with the same members are the same list. */
  lemma {:induction false} SortedUnique(a: seq<FileMeta>, b: seq<FileMeta>)
    requires Sorted(a) && Sorted(b)
    requires forall f :: f in a <==> f in b
    ensures a == b
  {
    assert |a| > 0 ==> a[0] in b;
    assert |b| > 0 ==> b[0] in a;
    if |a| > 0 {
      forall f
        ensures f in a[1..] <==> f in b[1..]
      {
        assert f in a <==> f == a[0] || f in a[1..];
        assert f in b <==> f == b[0] || f in b[1..];
      }
      SortedUnique(a[1..], b[1..]);
    }
  }

  // ---- installing edits one by one, and recovering them all at once ----

  /** LogAndApply: one builder per edit. */
  function LogAndApply(v: Version, edit: Edit): (r: Version)
    requires |v| == NUM_LEVELS
    ensures |r| == NUM_LEVELS
  {
    seq(NUM_LEVELS, l requires 0 <= l < NUM_LEVELS && |v| == NUM_LEVELS =>
      SaveLevel(v[l], AddedAfter([], edit.added, l), DeletedAfter(DeletedAt(edit, l), edit.added, l)))
  }

  function InstallAll(v: Version, edits: seq<Edit>): (r: Version)
    requires |v| == NUM_LEVELS
    ensures |r| == NUM_LEVELS
  {
    if |edits| == 0 then v else LogAndApply(InstallAll(v, edits[..|edits| - 1]), edits[|edits| - 1])
  }

  function DeletedAll(edits: seq<Edit>, level: nat): set<nat> {
    if |edits| == 0 then {}
    else
      var last := edits[|edits| - 1];
      DeletedAfter(DeletedAll(edits[..|edits| - 1], level) + DeletedAt(last, level), last.added, level)
  }

  function AddedAll(edits: seq<Edit>, level: nat): seq<FileMeta> {
    if |edits| == 0 then [] else AddedAfter(AddedAll(edits[..|edits| - 1], level), edits[|edits| - 1].added, level)
  }

  predicate LevelsInRange(edit: Edit) {
    (forall d :: d in edit.deleted ==> d.0 < NUM_LEVELS) && (forall a :: a in edit.added ==> a.0 < NUM_LEVELS)
  }

  const EmptyVersion: Version := [[], [], [], [], [], [], []]

  /** The additions at the level bring in no number already known there, and none twice. */
  predicate FreshEdit(known: seq<FileMeta>, added: seq<(nat, FileMeta)>, level: nat) {
    forall i :: 0 <= i < |added| && added[i].0 == level ==>
      && (forall g :: g in known ==> g.number != added[i].1.number)
      && (forall j :: 0 <= j < i && added[j].0 == level ==> added[j].1.number != added[i].1.number)
  }

  /** No edit re-adds a file number to a level that has held it before. */
  predicate NeverReAdded(base: seq<FileMeta>, edits: seq<Edit>, level: nat) {
    |edits| == 0
    || (var n := |edits| - 1;
        NeverReAdded(base, edits[..n], level) && FreshEdit(base + AddedAll(edits[..n], level), edits[n].added, level))
  }

  lemma {:induction false} DeletedAfterMembers(deleted: set<nat>, added: seq<(nat, FileMeta)>, level: nat, n: nat)
    ensures n in DeletedAfter(deleted, added, level)
            <==> n in deleted && forall a :: a in added && a.0 == level ==> a.1.number != n
  {
    if |added| > 0 {
      var front, last := added[..|added| - 1], added[|added| - 1];
      DeletedAfterMembers(deleted, front, level, n);
      assert added == front + [last];
      assert forall a :: a in added <==> a in front || a == last;
    }
  }

  lemma {:induction false} AddedAfterMembers(files: seq<FileMeta>, added: seq<(nat, FileMeta)>, level: nat)
    requires Sorted(files) && FreshEdit(files, added, level)
    ensures Sorted(AddedAfter(files, added, level))
    ensures forall f :: f in AddedAfter(files, added, level) <==> f in files || (level, f) in added
  {
    if |added| > 0 {
      var front, last := added[..|added| - 1], added[|added| - 1];
      AddedAfterMembers(files, front, level);
      assert added == front + [last];
      if last.0 == level {
        var before := AddedAfter(files, front, level);
        forall g | g in before
          ensures g.number != last.1.number
        {
          if g !in files {
            var j :| 0 <= j < |front| && front[j] == (level, g);
          }
        }
        InsertMembers(before, last.1);
      }
    }
  }

  /** One more edit keeps "the installed level is what one builder would save" as a set. */
  lemma {:induction false} RecoveryMembers(base: Version, edits: seq<Edit>, level: nat)
    requires |base| == NUM_LEVELS && level < NUM_LEVELS
    requires Sorted(base[level]) && NeverReAdded(base[level], edits, level)
    ensures Sorted(AddedAll(edits, level)) && Sorted(InstallAll(base, edits)[level])
    ensures forall f :: f in AddedAll(edits, level) ==> forall g :: g in base[level] ==> f.number != g.number
    ensures forall f :: f in InstallAll(base, edits)[level]
              <==> (f in base[level] || f in AddedAll(edits, level)) && f.number !in DeletedAll(edits, level)
  {
    if |edits| > 0 {
      var front, e := edits[..|edits| - 1], edits[|edits| - 1];
      RecoveryMembers(base, front, level);
      AddedAfterMembers(AddedAll(front, level), e.added, level);
      AddedAfterMembers([], e.added, level);
      assert forall g :: g in AddedAll(front, level) ==> g in base[level] + AddedAll(front, level);
      var now := InstallAll(base, front)[level];
      var added, deleted := AddedAfter([], e.added, level), DeletedAfter(DeletedAt(e, level), e.added, level);
      forall f, g | f in now && g in added
        ensures f.number != g.number
      {
        AddedNumbersFresh(base[level] + AddedAll(front, level), e.added, level, f, g);
      }
      SaveSorted(now, added, deleted);
      forall f
        ensures f in SaveLevel(now, added, deleted)
                <==> (f in base[level] || f in AddedAll(edits, level)) && f.number !in DeletedAll(edits, level)
      {
        SaveMembers(now, added, deleted, f);
        DeletedAfterMembers(DeletedAt(e, level), e.added, level, f.number);
        DeletedAfterMembers(DeletedAll(front, level) + DeletedAt(e, level), e.added, level, f.number);
        if f in base[level] || f in AddedAll(front, level) {
          forall a | a in e.added && a.0 == level
            ensures a.1.number != f.number
          {
            AddedNumbersFresh(base[level] + AddedAll(front, level), e.added, level, f, a.1);
          }
        }
      }
      forall f, g | f in AddedAll(edits, level) && g in base[level]
        ensures f.number != g.number
      {
        if f !in AddedAll(front, level) {
          AddedNumbersFresh(base[level] + AddedAll(front, level), e.added, level, g, f);
        }
      }
    }
  }

  lemma AddedNumbersFresh(known: seq<FileMeta>, added: seq<(nat, FileMeta)>, level: nat, f: FileMeta, g: FileMeta)
    requires FreshEdit(known, added, level) && f in known && (level, g) in added
    ensures f.number != g.number
  {
    var i :| 0 <= i < |added| && added[i] == (level, g);
  }

  /** Replaying all edits through one builder gives the level that installing them in turn gives. */
  lemma RecoveryIsInstallation(base: Version, edits: seq<Edit>, level: nat)
    requires |base| == NUM_LEVELS && level < NUM_LEVELS
    requires Sorted(base[level]) && NeverReAdded(base[level], edits, level)
    ensures SaveLevel(base[level], AddedAll(edits, level), DeletedAll(edits, level)) == InstallAll(base, edits)[level]
  {
    RecoveryMembers(base, edits, level);
    var a, d := AddedAll(edits, level), DeletedAll(edits, level);
    SaveSorted(base[level], a, d);
    forall f
      ensures f in SaveLevel(base[level], a, d) <==> f in InstallAll(base, edits)[level]
    {
      SaveMembers(base[level], a, d, f);
    }
    SortedUnique(SaveLevel(base[level], a, d), InstallAll(base, edits)[level]);
  }

  lemma NextLevel(edits: seq<Edit>, e: Edit, l: nat)
    ensures AddedAll(edits + [e], l) == AddedAfter(AddedAll(edits, l), e.added, l)
    ensures DeletedAll(edits + [e], l) == DeletedAfter(DeletedAll(edits, l) + DeletedAt(e, l), e.added, l)
  {
    assert (edits + [e])[..|edits|] == edits;
  }

  lemma NextInstalled(edits: seq<Edit>, e: Edit)
    ensures InstallAll(EmptyVersion, edits + [e]) == LogAndApply(InstallAll(EmptyVersion, edits), e)
  {
    assert (edits + [e])[..|edits|] == edits;
  }

  /** A file list in which a number comes back, which no store writes: the re-added number un-deletes the old file for
      the one builder only. */
  lemma ReAddedFileReturns(f: FileMeta, g: FileMeta)
    requires f.number == g.number && BySmallest(f, g)
    ensures var edits := [Edit({}, [(1, f)]), Edit({(1, f.number)}, []), Edit({}, [(1, g)])];
            && InstallAll(EmptyVersion, edits)[1] == [g]
            && SaveLevel([], AddedAll(edits, 1), DeletedAll(edits, 1)) == [f, g]
  {
    var add, remove, again := Edit({}, [(1, f)]), Edit({(1, f.number)}, []), Edit({}, [(1, g)]);
    assert [] + [add] + [remove] + [again] == [add, remove, again];
    NextLevel([], add, 1);
    NextLevel([add], remove, 1);
    NextLevel([add, remove], again, 1);
    NextInstalled([], add);
    NextInstalled([add], remove);
    NextInstalled([add, remove], again);
    assert DeletedAt(add, 1) == {} && DeletedAt(again, 1) == {};
    assert DeletedAt(remove, 1) == {f.number} by {
      assert (1, f.number) in remove.deleted;
    }
    OneAdded([], {}, f, 1);
    OneAdded([], {}, g, 1);
    OneAdded([f], {f.number}, g, 1);
    assert {} + {f.number} == {f.number} == {f.number} + {} && {f.number} - {g.number} == {};
    SaveOne(f, g);
    assert DeletedAll([add], 1) == {} && DeletedAll([add, remove], 1) == {f.number};
    assert DeletedAll([add, remove, again], 1) == {};
    assert AddedAll([add], 1) == [f] && AddedAll([add, remove], 1) == [f];
    assert AddedAll([add, remove, again], 1) == InsertFile([f], g) == [f, g];
    var none: set<nat> := {};
    assert none - {f.number} == none && InsertFile([], f) == [f] && InstallAll(EmptyVersion, []) == EmptyVersion;
    assert InstallAll(EmptyVersion, [add])[1] == SaveLevel([], [f], none) == [f];
    assert InstallAll(EmptyVersion, [add, remove])[1] == [];
  }

  lemma OneAdded(files: seq<FileMeta>, deleted: set<nat>, f: FileMeta, level: nat)
    ensures AddedAfter(files, [(level, f)], level) == InsertFile(files, f)
    ensures DeletedAfter(deleted, [(level, f)], level) == deleted - {f.number}
  {
    assert [(level, f)][..0] == [];
  }

  lemma SaveOne(f: FileMeta, g: FileMeta)
    requires BySmallest(f, g)
    ensures SaveLevel([], [f], {}) == [f] && SaveLevel([], [g], {}) == [g] && SaveLevel([], [f, g], {}) == [f, g]
    ensures SaveLevel([f], [], {f.number}) == []
  {
    assert [f, g][1..] == [g];
  }

  // ---- the snapshot record at the head of a manifest ----

  function SnapshotFiles(v: Version, level: nat): seq<(nat, FileMeta)>
    requires level <= |v|
  {
    if level == 0 then []
    else
      var files := v[level - 1];
      SnapshotFiles(v, level - 1) + seq(|files|, i requires 0 <= i < |files| => (level - 1, files[i]))
  }

  /** WriteSnapshot: an edit that adds every file of the version. */
  function Snapshot(v: Version): Edit
    requires |v| == NUM_LEVELS
  {
    Edit({}, SnapshotFiles(v, NUM_LEVELS))
  }

  lemma {:induction false} SnapshotAt(v: Version, upTo: nat, level: nat)
    requires upTo <= |v| && level < |v| && DistinctNumbers(v[level])
    ensures FreshEdit([], SnapshotFiles(v, upTo), level)
    ensures forall f :: (level, f) in SnapshotFiles(v, upTo) <==> level < upTo && f in v[level]
    ensures forall i :: 0 <= i < |SnapshotFiles(v, upTo)| ==> SnapshotFiles(v, upTo)[i].0 < upTo
  {
    if upTo > 0 {
      SnapshotAt(v, upTo - 1, level);
      var here := seq(|v[upTo - 1]|, i requires 0 <= i < |v[upTo - 1]| => (upTo - 1, v[upTo - 1][i]));
      forall f
        ensures (level, f) in here <==> level == upTo - 1 && f in v[level]
      {
        if level == upTo - 1 && f in v[level] {
          var k :| 0 <= k < |v[level]| && v[level][k] == f;
          assert here[k] == (level, f);
        }
      }
    }
  }

  /** A recovered database has the files of the version the manifest started from, with every later edit applied. */
  lemma RecoverRestores(v: Version, edits: seq<Edit>, level: nat)
    requires |v| == NUM_LEVELS && level < NUM_LEVELS
    requires Sorted(v[level]) && DistinctNumbers(v[level])
    requires NeverReAdded([], [Snapshot(v)] + edits, level)
    ensures SaveLevel([], AddedAll([Snapshot(v)] + edits, level), DeletedAll([Snapshot(v)] + edits, level))
            == InstallAll(v, edits)[level]
  {
    var all := [Snapshot(v)] + edits;
    RecoveryIsInstallation(EmptyVersion, all, level);
    SnapshotRestores(v, level);
    InstallAfterFirst(EmptyVersion, v, Snapshot(v), edits, level);
  }

  lemma SnapshotRestores(v: Version, level: nat)
    requires |v| == NUM_LEVELS && level < NUM_LEVELS
    requires Sorted(v[level]) && DistinctNumbers(v[level])
    ensures LogAndApply(EmptyVersion, Snapshot(v))[level] == v[level]
  {
    var e := Snapshot(v);
    SnapshotAt(v, NUM_LEVELS, level);
    AddedAfterMembers([], e.added, level);
    var added := AddedAfter([], e.added, level);
    SortedUnique(added, v[level]);
    assert DeletedAt(e, level) == {};
    var deleted := DeletedAfter({}, e.added, level);
    forall f
      ensures f in SaveLevel([], added, deleted) <==> f in v[level]
    {
      SaveMembers([], added, deleted, f);
      DeletedAfterMembers({}, e.added, level, f.number);
    }
    SaveSorted([], added, deleted);
    SortedUnique(SaveLevel([], added, deleted), v[level]);
  }

  lemma {:induction false} InstallAfterFirst(base: Version, v: Version, first: Edit, edits: seq<Edit>, level: nat)
    requires |base| == |v| == NUM_LEVELS && level < NUM_LEVELS && LogAndApply(base, first)[level] == v[level]
    ensures InstallAll(base, [first] + edits)[level] == InstallAll(v, edits)[level]
  {
    var all := [first] + edits;
    if |edits| == 0 {
      assert all[..0] == [];
    } else {
      assert all[..|all| - 1] == [first] + edits[..|edits| - 1];
      InstallAfterFirst(base, v, first, edits[..|edits| - 1], level);
    }
  }
}
