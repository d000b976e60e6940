/** One shard of the LRU cache: its two lists, reference counts and charges. */
module Caches {
  import opened Basics
  import opened HandleTables

  /** What a shard is at one moment. lru is in the order of use, oldest first. live are the allocated entries; refs and
      inCache are their mutable fields. held counts, for every live entry, the handles clients have and must release. */
  datatype Shard = Shard(usage: int, lru: seq<Handle>, inUse: seq<Handle>, contents: map<Key, Handle>,
                         live: map<nat, Handle>, refs: map<nat, nat>, inCache: set<nat>, held: map<nat, nat>)

  // ---- lists ----

  predicate Distinct(list: seq<Handle>) {
    forall i, j :: 0 <= i < j < |list| ==> list[i] != list[j]
  }

  function Total(list: seq<Handle>): nat {
    if list == [] then 0 else list[0].charge + Total(list[1..])
  }

  /** LRU_Remove: unlinks an entry from the list it is on. */
  function Without(list: seq<Handle>, e: Handle): seq<Handle> {
    if list == [] then [] else if list[0] == e then list[1..] else [list[0]] + Without(list[1..], e)
  }

  lemma {:induction false} WithoutFacts(list: seq<Handle>, e: Handle)
    requires Distinct(list)
    ensures Distinct(Without(list, e))
    ensures forall h :: h in Without(list, e) <==> h in list && h != e
    ensures Total(Without(list, e)) == Total(list) - if e in list then e.charge else 0
    ensures e !in list ==> Without(list, e) == list
  {
    if list != [] {
      WithoutFacts(list[1..], e);
      assert list == [list[0]] + list[1..];
      if list[0] != e {
        var rest := Without(list[1..], e);
        assert Without(list, e) == [list[0]] + rest && ([list[0]] + rest)[1..] == rest;
        assert list[0] !in list[1..] by {
          assert forall j :: 0 <= j < |list[1..]| ==> list[1..][j] == list[j + 1];
        }
      } else {
        assert e !in list[1..] by {
          assert forall j :: 0 <= j < |list[1..]| ==> list[1..][j] == list[j + 1];
        }
      }
    }
  }

  lemma {:induction false} AppendFacts(list: seq<Handle>, e: Handle)
    requires Distinct(list) && e !in list
    ensures Distinct(list + [e]) && Total(list + [e]) == Total(list) + e.charge
    ensures forall h :: h in list + [e] <==> h in list || h == e
  {
    if list != [] {
      assert Distinct(list[1..]) && e !in list[1..];
      AppendFacts(list[1..], e);
      assert (list + [e])[1..] == list[1..] + [e];
    }
  }

  lemma {:induction false} WithoutAppended(list: seq<Handle>, e: Handle, h: Handle)
    requires h != e
    ensures Without(list + [e], h) == Without(list, h) + [e]
  {
    if list == [] {
      assert list + [e] == [e];
    } else {
      WithoutAppended(list[1..], e, h);
      assert (list + [e])[1..] == list[1..] + [e];
    }
  }

  // ---- the invariant ----

  predicate Cached(s: Shard, e: Handle) {
    e.key in s.contents && s.contents[e.key] == e
  }

  predicate Evictable(s: Shard, e: Handle) {
    Cached(s, e) && e.id in s.refs && s.refs[e.id] == 1
  }

  predicate Pinned(s: Shard, e: Handle) {
    Cached(s, e) && e.id in s.refs && s.refs[e.id] >= 2
  }

  /** Every entry of the table is on exactly one list: lru if only the cache refers to it, in-use otherwise. */
  predicate ListsOk(s: Shard) {
    && Distinct(s.lru) && Distinct(s.inUse)
    && (forall e :: e in s.lru ==> Evictable(s, e)) && (forall e :: e in s.inUse ==> Pinned(s, e))
    && (forall key :: key in s.contents ==> s.contents[key] in s.lru || s.contents[key] in s.inUse)
    && s.usage == Total(s.lru) + Total(s.inUse)
  }

  predicate Known(s: Shard, e: Handle) {
    e.id in s.live && s.live[e.id] == e
  }

  /** An entry counts one reference for the cache, if it is cached, and one for every handle held. */
  predicate Counted(s: Shard, id: nat)
    requires s.refs.Keys == s.live.Keys == s.held.Keys && id in s.live
  {
    && s.live[id].id == id && (id in s.inCache <==> Cached(s, s.live[id]))
    && s.refs[id] == s.held[id] + (if id in s.inCache then 1 else 0) && s.refs[id] >= 1
  }

  predicate RefsOk(s: Shard) {
    && s.refs.Keys == s.live.Keys == s.held.Keys
    && (forall id :: id in s.live ==> Counted(s, id))
    && (forall key :: key in s.contents ==> s.contents[key].key == key && Known(s, s.contents[key]))
    && (forall id :: id in s.inCache ==> id in s.live)
  }

  predicate ShardOk(s: Shard) {
    ListsOk(s) && RefsOk(s)
  }

  // ---- the steps ----

  function Unlink(s: Shard, e: Handle): Shard {
    s.(lru := Without(s.lru, e), inUse := Without(s.inUse, e))
  }

  function Ref(s: Shard, e: Handle): Shard
    requires e.id in s.refs
  {
    var t := if s.refs[e.id] == 1 && e.id in s.inCache then
               var u := Unlink(s, e);
               u.(inUse := u.inUse + [e])
             else s;
    t.(refs := s.refs[e.id := s.refs[e.id] + 1])
  }

  /** Drops a reference; the last one frees the entry, and the last but one, if the cache has it, makes it evictable. */
  function Unref(s: Shard, e: Handle): Shard
    requires e.id in s.refs && s.refs[e.id] > 0
  {
    var n := s.refs[e.id] - 1;
    if n == 0 then
      s.(live := s.live - {e.id}, refs := s.refs - {e.id}, held := s.held - {e.id})
    else
      var t := s.(refs := s.refs[e.id := n]);
      if e.id in s.inCache && n == 1 then
        var u := Unlink(t, e);
        u.(lru := u.lru + [e])
      else t
  }

  /** The rest of the removal of an entry that the table no longer has. */
  function FinishErase(s: Shard, e: Handle): Shard
    requires e.id in s.refs && s.refs[e.id] > 0
  {
    var u := Unlink(s, e);
    Unref(u.(inCache := u.inCache - {e.id}, usage := u.usage - e.charge), e)
  }

  function Hold(s: Shard, id: nat, n: int): Shard
    requires id in s.held && s.held[id] + n >= 0
  {
    s.(held := s.held[id := s.held[id] + n])
  }

  /** Every handle a client holds stays good, and as often as it is held. */
  predicate HandlesKept(held: map<nat, nat>, held': map<nat, nat>) {
    forall id :: id in held && held[id] > 0 ==> id in held' && held'[id] == held[id]
  }

  /** Taking an entry out of the cache frees it only if no handle on it is left. */
  lemma EraseKeepsHandles(s: Shard, e: Handle)
    requires RefsOk(s) && Cached(s, e)
    ensures var cut := s.(contents := s.contents - {e.key});
            e.id in cut.refs && cut.refs[e.id] > 0 && HandlesKept(s.held, FinishErase(cut, e).held)
  {
    hide Without;
    CachedIsKnown(s, e);
    assert Counted(s, e.id);
  }

  /** Two entries with one id are one entry. */
  lemma OneById(s: Shard, e: Handle, f: Handle)
    requires RefsOk(s) && Cached(s, e) && Cached(s, f) && e.id == f.id
    ensures e == f
  {
  }

  /** Moving a cached entry to the end of one of the lists. */
  predicate Moved(s: Shard, t: Shard, e: Handle, toLru: bool) {
    var u := Unlink(s, e);
    && t.lru == (if toLru then u.lru + [e] else u.lru) && t.inUse == (if toLru then u.inUse else u.inUse + [e])
    && t.contents == s.contents && t.usage == s.usage
  }

  lemma MoveKeepsLists(s: Shard, t: Shard, e: Handle, toLru: bool)
    requires ListsOk(s) && Cached(s, e) && (e in s.lru || e in s.inUse) && Moved(s, t, e, toLru)
    requires e.id in t.refs && (if toLru then t.refs[e.id] == 1 else t.refs[e.id] >= 2)
    requires forall f :: (f in s.lru || f in s.inUse) && f != e ==> f.id in t.refs && t.refs[f.id] == s.refs[f.id]
    ensures ListsOk(t)
  {
    hide Total, Without, Distinct;
    WithoutFacts(s.lru, e);
    WithoutFacts(s.inUse, e);
    AppendFacts(Without(s.lru, e), e);
    AppendFacts(Without(s.inUse, e), e);
    assert !(e in s.lru && e in s.inUse);
  }

  lemma RefKeepsLists(s: Shard, e: Handle)
    requires ShardOk(s) && Cached(s, e)
    ensures ListsOk(Ref(s, e))
  {
    hide Total, Without, Distinct;
    forall f | (f in s.lru || f in s.inUse) && f != e
      ensures f.id != e.id
    {
      if f.id == e.id {
        OneById(s, e, f);
      }
    }
    if s.refs[e.id] == 1 {
      MoveKeepsLists(s, Ref(s, e), e, false);
    }
  }

  lemma LookupKeepsOk(s: Shard, e: Handle)
    requires ShardOk(s) && Cached(s, e)
    ensures e.id in s.refs && e.id in s.held && ShardOk(Hold(Ref(s, e), e.id, 1))
    ensures Ref(s, e).contents == s.contents
  {
    RefKeepsLists(s, e);
    RefKeepsRefs(s, e);
    hide Total, Without, RefsOk, ListsOk;
    HoldKeepsLists(Ref(s, e), e.id, 1);
  }

  lemma HoldKeepsLists(s: Shard, id: nat, n: int)
    requires ListsOk(s) && id in s.held && s.held[id] + n >= 0
    ensures ListsOk(Hold(s, id, n))
  {
    hide Total, Distinct;
  }

  lemma RefKeepsRefs(s: Shard, e: Handle)
    requires RefsOk(s) && Cached(s, e)
    ensures e.id in s.refs && e.id in s.held && RefsOk(Hold(Ref(s, e), e.id, 1))
  {
    hide Without;
  }

  /** A released handle: the entry is freed, becomes evictable, or stays as it is. */
  lemma ReleaseKeepsOk(s: Shard, e: Handle)
    requires ShardOk(s) && e.id in s.live && s.live[e.id] == e && s.held[e.id] > 0
    ensures s.refs[e.id] > 0 && ShardOk(Unref(Hold(s, e.id, -1), e))
    ensures Unref(Hold(s, e.id, -1), e).contents == s.contents
  {
    ReleaseKeepsLists(s, e);
    ReleaseKeepsRefs(s, e);
    hide Total, Without, ListsOk;
  }

  lemma ReleaseKeepsLists(s: Shard, e: Handle)
    requires ShardOk(s) && e.id in s.live && s.live[e.id] == e && s.held[e.id] > 0
    ensures ListsOk(Unref(Hold(s, e.id, -1), e))
  {
    hide Total, Without, Distinct;
    var t := Unref(Hold(s, e.id, -1), e);
    forall f | (f in s.lru || f in s.inUse) && f != e
      ensures f.id != e.id
    {
      assert Cached(s, f);
    }
    if e.id in s.inCache && s.refs[e.id] == 2 {
      MoveKeepsLists(s, t, e, true);
    }
  }

  lemma ReleaseKeepsRefs(s: Shard, e: Handle)
    requires RefsOk(s) && e.id in s.live && s.live[e.id] == e && s.held[e.id] > 0
    ensures RefsOk(Unref(Hold(s, e.id, -1), e))
  {
    hide Without;
  }

  /** The table gives an entry up and the rest of the removal follows: freed at once unless a client holds it. */
  lemma EraseKeepsOk(s: Shard, e: Handle)
    requires ShardOk(s) && Cached(s, e)
    ensures var cut := s.(contents := s.contents - {e.key});
            e.id in cut.refs && cut.refs[e.id] > 0 && ShardOk(FinishErase(cut, e))
            && FinishErase(cut, e).contents == s.contents - {e.key}
  {
    EraseKeepsLists(s, e);
    EraseKeepsRefs(s, e);
    hide Total, Without, ListsOk;
  }

  lemma EraseKeepsLists(s: Shard, e: Handle)
    requires ShardOk(s) && Cached(s, e)
    ensures ListsOk(FinishErase(s.(contents := s.contents - {e.key}), e))
  {
    hide Total, Without, Distinct;
    WithoutFacts(s.lru, e);
    WithoutFacts(s.inUse, e);
    forall f | (f in s.lru || f in s.inUse) && f != e
      ensures f.id != e.id && f.key != e.key
    {
      assert Cached(s, f);
    }
    assert e in s.lru || e in s.inUse;
    assert !(e in s.lru && e in s.inUse);
    CutKeepsLists(s, FinishErase(s.(contents := s.contents - {e.key}), e), e);
  }

  lemma CutKeepsLists(s: Shard, t: Shard, e: Handle)
    requires ListsOk(s) && Cached(s, e) && (e in s.lru <==> e !in s.inUse)
    requires t.lru == Without(s.lru, e) && t.inUse == Without(s.inUse, e) && t.usage == s.usage - e.charge
    requires t.contents == s.contents - {e.key}
    requires forall f :: (f in s.lru || f in s.inUse) && f != e ==>
               f.key != e.key && f.id in t.refs && t.refs[f.id] == s.refs[f.id]
    requires forall key :: key in s.contents ==> s.contents[key].key == key
    ensures ListsOk(t)
  {
    hide Total, Without, Distinct;
    WithoutFacts(s.lru, e);
    WithoutFacts(s.inUse, e);
    forall f | f in t.lru
      ensures Evictable(t, f)
    {
      assert Evictable(s, f);
    }
    forall f | f in t.inUse
      ensures Pinned(t, f)
    {
      assert Pinned(s, f);
    }
  }

  lemma EraseKeepsRefs(s: Shard, e: Handle)
    requires RefsOk(s) && Cached(s, e)
    ensures RefsOk(FinishErase(s.(contents := s.contents - {e.key}), e))
  {
    hide Without;
  }

  /** A new entry with one reference for its client and, if it is cached, one for the cache. */
  function Add(s: Shard, e: Handle, cache: bool): Shard {
    var t := s.(live := s.live[e.id := e], held := s.held[e.id := 1], refs := s.refs[e.id := if cache then 2 else 1]);
    if cache then
      t.(inCache := t.inCache + {e.id}, inUse := t.inUse + [e], usage := t.usage + e.charge,
        contents := t.contents[e.key := e])
    else t
  }

  lemma AddKeepsOk(s: Shard, e: Handle, cache: bool)
    requires ShardOk(s) && e.id !in s.live && (cache ==> e.key !in s.contents)
    ensures ShardOk(Add(s, e, cache))
  {
    AddKeepsLists(s, e, cache);
    AddKeepsRefs(s, e, cache);
    hide ListsOk, RefsOk, Add;
  }

  lemma AddKeepsLists(s: Shard, e: Handle, cache: bool)
    requires ShardOk(s) && e.id !in s.live && (cache ==> e.key !in s.contents)
    ensures ListsOk(Add(s, e, cache))
  {
    hide Total, Without, Distinct, RefsOk;
    forall f | f in s.lru || f in s.inUse
      ensures f.id != e.id && f != e && Cached(s, f)
    {
      ListedIsKnown(s, f);
    }
    AppendFacts(s.inUse, e);
    var t := Add(s, e, cache);
    forall f | f in t.lru
      ensures Evictable(t, f)
    {
      assert Evictable(s, f);
    }
    forall f | f in t.inUse
      ensures Pinned(t, f)
    {
      assert f in s.inUse ==> Pinned(s, f);
    }
  }

  lemma ListedIsKnown(s: Shard, f: Handle)
    requires ShardOk(s) && (f in s.lru || f in s.inUse)
    ensures Cached(s, f) && Known(s, f)
  {
    hide Total, Distinct;
    assert Cached(s, f);
  }

  lemma AddKeepsRefs(s: Shard, e: Handle, cache: bool)
    requires RefsOk(s) && e.id !in s.live && (cache ==> e.key !in s.contents)
    ensures RefsOk(Add(s, e, cache))
  {
    var t := Add(s, e, cache);
    forall id | id in t.live
      ensures Counted(t, id)
    {
      if id != e.id {
        assert Counted(s, id);
        assert Known(s, s.live[id]);
      }
    }
  }

  // ---- the cache ----

  class LRUCache {
    const capacity: nat
    const table: HandleTable
    var usage: int
    var lru: seq<Handle>
    var inUse: seq<Handle>
    var refs: map<nat, nat>
    var inCache: set<nat>
    ghost var live: map<nat, Handle>
    ghost var held: map<nat, nat>

    ghost function Now(): Shard
      reads this, table
    {
      Shard(usage, lru, inUse, table.contents, live, refs, inCache, held)
    }

    ghost predicate Valid()
      reads this, table
    {
      ShardOk(Now()) && table.Valid()
    }

    constructor (capacity: nat, hash: Key -> nat)
      ensures Valid() && fresh(table) && this.capacity == capacity && table.contents == map[] && live == map[]
    {
      this.capacity := capacity;
      table := new HandleTable(hash);
      usage, lru, inUse, refs, inCache := 0, [], [], map[], {};
      live, held := map[], map[];
    }

    method AddRef(e: Handle)
      requires e.id in refs
      modifies this`lru, this`inUse, this`refs
      ensures Now() == Ref(old(Now()), e)
    {
      if refs[e.id] == 1 && e.id in inCache {
        lru, inUse := Without(lru, e), Without(inUse, e);
        inUse := inUse + [e];
      }
      refs := refs[e.id := refs[e.id] + 1];
    }

    method DropRef(e: Handle)
      requires e.id in refs && refs[e.id] > 0
      modifies this`lru, this`inUse, this`refs, this`live, this`held
      ensures Now() == Unref(old(Now()), e)
    {
      var n := refs[e.id] - 1;
      if n == 0 {
        live, refs, held := live - {e.id}, refs - {e.id}, held - {e.id};
      } else {
        refs := refs[e.id := n];
        if e.id in inCache && n == 1 {
          lru, inUse := Without(lru, e), Without(inUse, e);
          lru := lru + [e];
        }
      }
    }

    method FinishRemoval(e: Handle)
      requires e.id in refs && refs[e.id] > 0
      modifies this
      ensures Now() == FinishErase(old(Now()), e)
    {
      lru, inUse := Without(lru, e), Without(inUse, e);
      inCache := inCache - {e.id};
      usage := usage - e.charge;
      DropRef(e);
    }

    /** Finds what a plain map would, and gives the client one more handle on it. */
    method Lookup(key: Key) returns (e: Option<Handle>)
      requires Valid()
      modifies this
      ensures Valid() && table.contents == old(table.contents) && live == old(live)
      ensures e == if key in table.contents then Some(table.contents[key]) else None
      ensures e.Some? ==> e.value.id in old(held) && held == old(held)[e.value.id := old(held)[e.value.id] + 1]
      ensures e.None? ==> held == old(held)
      ensures lru == if e.Some? then Without(old(lru), e.value) else old(lru)
    {
      hide ListsOk, RefsOk, Ref;
      e := table.Lookup(key);
      if e.Some? {
        LookupKeepsOk(Now(), e.value);
        RefKeepsRest(Now(), e.value);
        RefTakes(Now(), e.value);
        AddRef(e.value);
        held := held[e.value.id := held[e.value.id] + 1];
      }
    }

    /** Gives one handle back; the entry is freed exactly if it was the last and the cache no longer has the entry. */
    method Release(e: Handle)
      requires Valid() && Known(Now(), e) && e.id in held && held[e.id] > 0
      modifies this
      ensures Valid() && table.contents == old(table.contents)
      ensures e.id !in live <==> old(held)[e.id] == 1 && e.id !in old(inCache)
      ensures forall id :: id != e.id ==> (id in live <==> id in old(live))
      ensures e.id in live ==> held == old(held)[e.id := old(held)[e.id] - 1]
      ensures lru == if old(held)[e.id] == 1 && e.id in old(inCache) then old(lru) + [e] else old(lru)
    {
      ReleaseKeepsOk(Now(), e);
      UnrefGives(Now(), e);
      UnrefFrees(Now(), e);
      hide ShardOk, Known, Without, Unref, HandleTable.Valid;
      held := held[e.id := held[e.id] - 1];
      DropRef(e);
    }

    method EraseEntry(key: Key)
      requires Valid()
      modifies this, table
      ensures Valid() && table.contents == old(table.contents) - {key}
      ensures if key in old(table.contents) then
                var e := old(table.contents)[key];
                e.id in old(refs) && old(refs)[e.id] > 0
                && Now() == FinishErase(old(Now()).(contents := old(table.contents) - {key}), e)
              else Now() == old(Now())
      ensures HandlesKept(old(held), held)
    {
      hide ShardOk, FinishErase, HandleTable.Valid;
      ghost var s := Now();
      ErasePlan(s, key);
      var prior := table.Remove(key);
      if prior.Some? {
        FinishRemoval(prior.value);
      }
    }

    /** The oldest entry nobody holds goes; it is freed at once. */
    method EvictOldest()
      requires Valid() && lru != []
      modifies this, table
      ensures Valid() && lru == old(lru)[1..] && inUse == old(inUse) && usage == old(usage) - old(lru)[0].charge
      ensures var e := old(lru)[0];
              && e.key in old(table.contents) && old(table.contents)[e.key] == e && e.id in old(held)
              && old(held)[e.id] == 0
              && table.contents == old(table.contents) - {e.key} && live == old(live) - {e.id}
              && held == old(held) - {e.id}
    {
      hide Total, Distinct, RefsOk, Without, Unref;
      var e := lru[0];
      OldestGoes(Now());
      EraseEntry(e.key);
    }

    method Prune()
      requires Valid()
      modifies this, table
      ensures Valid() && lru == [] && inUse == old(inUse) && HandlesKept(old(held), held)
    {
      hide ShardOk, HandleTable.Valid;
      while lru != []
        invariant Valid() && inUse == old(inUse) && HandlesKept(old(held), held)
        decreases |lru|
      {
        EvictOldest();
      }
    }

    /** Puts a new entry in, under an address not in use, then evicts from the old end of lru until the shard fits or
        nothing is evictable. */
    method Insert(id: nat, key: Key, charge: nat) returns (e: Handle)
      requires Valid() && id !in live
      modifies this, table
      ensures Valid() && e == Handle(id, key, charge) && id in held && held[id] == 1 && HandlesKept(old(held), held)
      ensures usage <= capacity || lru == []
      ensures capacity > 0 ==> key in table.contents && table.contents[key] == e
      ensures forall k :: k in table.contents && !(k == key && capacity > 0) ==>
                k in old(table.contents) && table.contents[k] == old(table.contents)[k]
      ensures var was :=
                if capacity > 0 && key in old(table.contents) then Without(old(lru), old(table.contents)[key])
                else old(lru);
              exists n: nat :: n <= |was| && lru == was[n..] && (n > 0 ==> usage + was[n - 1].charge > capacity)
    {
      hide LRUCache.Valid, Without;
      e := PutEntry(id, key, charge);
      ghost var was, n: nat := lru, 0;
      while usage > capacity && lru != []
        invariant Valid() && n <= |was| && lru == was[n..] && (n > 0 ==> usage + was[n - 1].charge > capacity)
        invariant id in held && held[id] == 1 && HandlesKept(old(held), held)
        invariant capacity > 0 ==> key in table.contents && table.contents[key] == e
        invariant forall k :: k in table.contents && !(k == key && capacity > 0) ==>
                    k in old(table.contents) && table.contents[k] == old(table.contents)[k]
        decreases |lru|
      {
        EvictOldest();
        n := n + 1;
      }
    }

    method PutEntry(id: nat, key: Key, charge: nat) returns (e: Handle)
      requires Valid() && id !in live
      modifies this, table
      ensures Valid() && e == Handle(id, key, charge) && id in live && id in held && held[id] == 1
      ensures HandlesKept(old(held), held)
      ensures lru == if capacity > 0 && key in old(table.contents) then Without(old(lru), old(table.contents)[key])
                     else old(lru)
      ensures table.contents == if capacity > 0 then old(table.contents)[key := e] else old(table.contents)
    {
      hide ShardOk, Without, FinishErase, HandleTable.Valid, HandlesKept;
      ghost var s := Now();
      e := Handle(id, key, charge);
      AddPlan(s, e);
      PutKeepsHandles(s, e);
      live, held := live[id := e], held[id := 1];
      if capacity > 0 {
        refs := refs[id := 2];
        inCache := inCache + {id};
        inUse := inUse + [e];
        usage := usage + charge;
        var prior := table.Insert(e);
        assert Now() == Add(s, e, true);
        if prior.Some? {
          FinishRemoval(prior.value);
        }
      } else {
        refs := refs[id := 1];
        assert Now() == Add(s, e, false);
      }
    }
  }

  /** An entry that gets a handle is no longer evictable. */
  lemma RefTakes(s: Shard, e: Handle)
    requires ShardOk(s) && Cached(s, e)
    ensures e.id in s.refs && Ref(s, e).lru == Without(s.lru, e)
  {
    hide Total, Distinct;
    CachedIsKnown(s, e);
    assert Counted(s, e.id);
    if s.refs[e.id] > 1 {
      assert e in s.lru ==> Evictable(s, e);
      WithoutFacts(s.lru, e);
    }
  }

  /** A cached entry whose last handle goes becomes the youngest evictable one. */
  lemma UnrefFrees(s: Shard, e: Handle)
    requires RefsOk(s) && e.id in s.live && s.live[e.id] == e && s.held[e.id] > 0
    ensures var t := Unref(Hold(s, e.id, -1), e);
            && (e.id !in t.live <==> s.held[e.id] == 1 && e.id !in s.inCache)
            && (forall id :: id != e.id ==> (id in t.live <==> id in s.live))
            && (e.id in t.live ==> t.held == s.held[e.id := s.held[e.id] - 1])
  {
    assert Counted(s, e.id);
  }

  lemma UnrefGives(s: Shard, e: Handle)
    requires ShardOk(s) && e.id in s.live && s.live[e.id] == e && e.id in s.held && s.held[e.id] > 0
    ensures e.id in s.refs && s.refs[e.id] > 0
    ensures Unref(Hold(s, e.id, -1), e).lru == if s.held[e.id] == 1 && e.id in s.inCache then s.lru + [e] else s.lru
  {
    hide Total, Distinct;
    assert Counted(s, e.id);
    assert e in s.lru ==> Evictable(s, e);
    WithoutFacts(s.lru, e);
  }

  lemma OldestGoes(s: Shard)
    requires ShardOk(s) && s.lru != []
    ensures var e := s.lru[0];
            var cut := s.(contents := s.contents - {e.key});
            && Cached(s, e) && e.id in cut.refs && cut.refs[e.id] > 0 && e.id in s.held && s.held[e.id] == 0
            && var t := FinishErase(cut, e);
               && t.lru == s.lru[1..] && t.inUse == s.inUse && t.usage == s.usage - e.charge
               && t.live == s.live - {e.id} && t.held == s.held - {e.id}
  {
    hide Total;
    var e := s.lru[0];
    assert Evictable(s, e);
    CachedIsKnown(s, e);
    assert Counted(s, e.id);
    assert e !in s.inUse by {
      assert e in s.inUse ==> Pinned(s, e);
    }
    WithoutFacts(s.inUse, e);
  }

  /** Replacing an entry is removing the old one and then adding the new one. */
  lemma AddOverErased(s: Shard, e: Handle, prior: Handle)
    requires ShardOk(s) && e.id !in s.live && Cached(s, prior) && prior.key == e.key
    ensures var put := Add(s, e, true);
            && prior.id in put.refs && put.refs[prior.id] > 0 && prior.id != e.id && ShardOk(FinishErase(put, prior))
            && FinishErase(put, prior).contents == put.contents && e in FinishErase(put, prior).inUse
            && FinishErase(put, prior).lru == Without(s.lru, prior)
            && e.id in FinishErase(put, prior).live && e.id in FinishErase(put, prior).held
            && FinishErase(put, prior).held[e.id] == 1
  {
    CachedIsKnown(s, prior);
    EraseKeepsOk(s, prior);
    var erased := FinishErase(s.(contents := s.contents - {e.key}), prior);
    ErasedIsGone(s, e, prior);
    AddKeepsOk(erased, e, true);
    hide ShardOk, Without;
    AddThenErase(s, e, prior);
  }

  lemma PutKeepsHandles(s: Shard, e: Handle)
    requires ShardOk(s) && e.id !in s.live
    ensures HandlesKept(s.held, s.held[e.id := 1])
    ensures e.key in s.contents ==>
              var put, prior := Add(s, e, true), s.contents[e.key];
              prior.id in put.refs && put.refs[prior.id] > 0 && HandlesKept(s.held, FinishErase(put, prior).held)
  {
    hide ListsOk, Without;
    assert e.id !in s.held;
    if e.key in s.contents {
      TableKey(s, e.key);
      CachedIsKnown(s, s.contents[e.key]);
      assert Counted(s, s.contents[e.key].id);
    }
  }

  lemma AddPlan(s: Shard, e: Handle)
    requires ShardOk(s) && e.id !in s.live
    ensures ShardOk(Add(s, e, false))
    ensures var put := Add(s, e, true);
            && put.lru == s.lru && put.held[e.id] == 1
            && if e.key !in s.contents then ShardOk(put)
               else
                 var prior := s.contents[e.key];
                 && prior.id in put.refs && put.refs[prior.id] > 0 && ShardOk(FinishErase(put, prior))
                 && FinishErase(put, prior).contents == put.contents
                 && FinishErase(put, prior).lru == Without(s.lru, prior)
                 && e.id in FinishErase(put, prior).live && e.id in FinishErase(put, prior).held
                 && FinishErase(put, prior).held[e.id] == 1
  {
    hide ListsOk, FinishErase, Without;
    AddKeepsOk(s, e, false);
    if e.key in s.contents {
      TableKey(s, e.key);
      AddOverErased(s, e, s.contents[e.key]);
    } else {
      AddKeepsOk(s, e, true);
    }
  }

  lemma CachedIsKnown(s: Shard, e: Handle)
    requires RefsOk(s) && Cached(s, e)
    ensures Known(s, e) && e.id in s.refs && e.id in s.held && s.refs[e.id] > 0
  {
    assert Known(s, s.contents[e.key]);
    assert Counted(s, e.id);
  }

  lemma ErasedIsGone(s: Shard, e: Handle, prior: Handle)
    requires RefsOk(s) && e.id !in s.live && Cached(s, prior) && prior.key == e.key
    requires prior.id in s.refs && s.refs[prior.id] > 0
    ensures var t := FinishErase(s.(contents := s.contents - {e.key}), prior);
            e.id !in t.live && e.key !in t.contents && t.lru == Without(s.lru, prior)
  {
    hide Without;
  }

  lemma AddThenErase(s: Shard, e: Handle, prior: Handle)
    requires prior.id in s.refs && s.refs[prior.id] > 0 && prior.id != e.id && prior.key == e.key
    ensures FinishErase(Add(s, e, true), prior)
              == Add(FinishErase(s.(contents := s.contents - {e.key}), prior), e, true)
  {
    hide Without;
    WithoutAppended(s.inUse, e, prior);
    PutDrop(s.live, e.id, e, prior.id);
    PutDrop(s.held, e.id, 1, prior.id);
    PutDrop(s.refs, e.id, 2, prior.id);
    PutPut(s.refs, e.id, 2, prior.id, s.refs[prior.id] - 1);
    DropPut(s.contents, e.key, e);
    assert s.inCache + {e.id} - {prior.id} == s.inCache - {prior.id} + {e.id};
  }

  lemma PutDrop<K, V>(m: map<K, V>, k: K, v: V, other: K)
    requires k != other
    ensures m[k := v] - {other} == (m - {other})[k := v]
  {
  }

  lemma PutPut<K, V>(m: map<K, V>, k: K, v: V, other: K, w: V)
    requires k != other
    ensures m[k := v][other := w] == m[other := w][k := v]
  {
  }

  lemma DropPut<K, V>(m: map<K, V>, k: K, v: V)
    ensures (m - {k})[k := v] == m[k := v]
  {
  }

  lemma ErasePlan(s: Shard, key: Key)
    requires ShardOk(s)
    ensures if key in s.contents then
              var e := s.contents[key];
              var cut := s.(contents := s.contents - {key});
              && e.key == key && e.id in s.refs && s.refs[e.id] > 0 && ShardOk(FinishErase(cut, e))
              && FinishErase(cut, e).contents == s.contents - {key} && HandlesKept(s.held, FinishErase(cut, e).held)
            else s.contents - {key} == s.contents
  {
    hide ListsOk, FinishErase;
    if key in s.contents {
      TableKey(s, key);
      EraseKeepsOk(s, s.contents[key]);
      EraseKeepsHandles(s, s.contents[key]);
    }
  }

  lemma TableKey(s: Shard, key: Key)
    requires RefsOk(s) && key in s.contents
    ensures Cached(s, s.contents[key]) && s.contents[key].key == key
  {
  }

  lemma RefKeepsRest(s: Shard, e: Handle)
    requires e.id in s.refs
    ensures Ref(s, e).live == s.live && Ref(s, e).held == s.held
  {
  }
}
