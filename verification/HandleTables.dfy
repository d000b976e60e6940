/** The cache's chained hash table, which agrees with a map through every rehash. */
module HandleTables {
  import opened Basics

  type Key = seq<byte>

  /** The immutable part of a cache entry; id is its address. */
  datatype Handle = Handle(id: nat, key: Key, charge: nat)

  function Bucket(hash: Key -> nat, key: Key, n: nat): (i: nat)
    requires n > 0
    ensures i < n
  {
    hash(key) % n
  }

  /** A chain holds each key once, and what it holds belongs in bucket i and in the map. */
  predicate ChainOk(hash: Key -> nat, n: nat, i: nat, chain: seq<Handle>, contents: map<Key, Handle>)
    requires n > 0
  {
    && (forall j :: 0 <= j < |chain| ==>
          Bucket(hash, chain[j].key, n) == i && chain[j].key in contents && contents[chain[j].key] == chain[j])
    && (forall j, k :: 0 <= j < k < |chain| ==> chain[j].key != chain[k].key)
  }

  /** The chains hold exactly the entries of the map. */
  predicate Represents(hash: Key -> nat, buckets: seq<seq<Handle>>, contents: map<Key, Handle>) {
    && |buckets| > 0
    && (forall i :: 0 <= i < |buckets| ==> ChainOk(hash, |buckets|, i, buckets[i], contents))
    && (forall key :: key in contents ==>
          contents[key].key == key && contents[key] in buckets[Bucket(hash, key, |buckets|)])
  }

  /** A chain stands up to a change of the map that leaves its own keys alone. */
  lemma ChainKept(hash: Key -> nat, n: nat, i: nat, chain: seq<Handle>, contents: map<Key, Handle>,
                  contents': map<Key, Handle>)
    requires n > 0 && ChainOk(hash, n, i, chain, contents)
    requires forall h: Handle :: h in chain ==> h.key in contents' && contents'[h.key] == h
    ensures ChainOk(hash, n, i, chain, contents')
  {
    forall j | 0 <= j < |chain|
      ensures chain[j].key in contents' && contents'[chain[j].key] == chain[j]
    {
      assert chain[j] in chain;
    }
  }

  /** Changing one bucket, and in the map only the key of an entry of that bucket. */
  lemma BucketChanged(hash: Key -> nat, buckets: seq<seq<Handle>>, contents: map<Key, Handle>, key: Key,
                      chain: seq<Handle>, contents': map<Key, Handle>)
    requires Represents(hash, buckets, contents)
    requires ChainOk(hash, |buckets|, Bucket(hash, key, |buckets|), chain, contents')
    requires forall k: Key :: k != key ==>
              (k in contents' <==> k in contents) && (k in contents ==> contents'[k] == contents[k])
    requires key in contents' ==> contents'[key].key == key && contents'[key] in chain
    requires forall h: Handle :: h.key != key && h in buckets[Bucket(hash, key, |buckets|)] ==> h in chain
    ensures Represents(hash, buckets[Bucket(hash, key, |buckets|) := chain], contents')
  {
    var b, n := Bucket(hash, key, |buckets|), |buckets|;
    var buckets' := buckets[b := chain];
    forall i | 0 <= i < n && i != b
      ensures ChainOk(hash, n, i, buckets'[i], contents')
    {
      assert ChainOk(hash, n, i, buckets[i], contents);
      ChainKept(hash, n, i, buckets[i], contents, contents');
    }
  }

  class HandleTable {
    const hash: Key -> nat
    var buckets: seq<seq<Handle>>
    var elems: nat
    ghost var contents: map<Key, Handle>

    ghost predicate Valid()
      reads this
    {
      Represents(hash, buckets, contents) && elems == |contents| <= |buckets|
    }

    constructor (hash: Key -> nat)
      ensures Valid() && contents == map[] && this.hash == hash
    {
      this.hash := hash;
      buckets := [[], [], [], []];
      elems := 0;
      contents := map[];
    }

    /** The bucket of a key and the place of its entry there, or the end of the chain. */
    method FindPointer(key: Key) returns (b: nat, j: nat)
      requires Valid()
      ensures b == Bucket(hash, key, |buckets|) && j <= |buckets[b]|
      ensures if key in contents then j < |buckets[b]| && buckets[b][j] == contents[key] else j == |buckets[b]|
    {
      b, j := Bucket(hash, key, |buckets|), 0;
      assert ChainOk(hash, |buckets|, b, buckets[b], contents);
      while j < |buckets[b]| && buckets[b][j].key != key
        invariant j <= |buckets[b]| && forall k :: 0 <= k < j ==> buckets[b][k].key != key
      {
        j := j + 1;
      }
    }

    method Lookup(key: Key) returns (h: Option<Handle>)
      requires Valid()
      ensures h == if key in contents then Some(contents[key]) else None
    {
      var b, j := FindPointer(key);
      h := if j < |buckets[b]| then Some(buckets[b][j]) else None;
    }

    /** Replaces the entry of the key, or appends one and then grows the table if it has more entries than buckets, so
        that there are never more. */
    method Insert(h: Handle) returns (prior: Option<Handle>)
      requires Valid()
      modifies this
      ensures Valid() && contents == old(contents)[h.key := h]
      ensures prior == if h.key in old(contents) then Some(old(contents)[h.key]) else None
    {
      hide Represents;
      var b, j := FindPointer(h.key);
      var chain := buckets[b];
      prior := if j < |chain| then Some(chain[j]) else None;
      var chain' := if j < |chain| then chain[j := h] else chain + [h];
      PutChain(hash, buckets, contents, h, j);
      buckets := buckets[b := chain'];
      contents := contents[h.key := h];
      if prior.None? {
        elems := elems + 1;
        if elems > |buckets| {
          Resize();
        }
      }
    }

    method Remove(key: Key) returns (prior: Option<Handle>)
      requires Valid()
      modifies this
      ensures Valid() && contents == old(contents) - {key}
      ensures prior == if key in old(contents) then Some(old(contents)[key]) else None
    {
      hide Represents;
      var b, j := FindPointer(key);
      var chain := buckets[b];
      if j == |chain| {
        assert contents - {key} == contents;
        return None;
      }
      prior := Some(chain[j]);
      CutChain(hash, buckets, contents, key, j);
      buckets := buckets[b := chain[..j] + chain[j + 1..]];
      elems := elems - 1;
      contents := contents - {key};
    }

    /** Moves every entry to the front of its chain in a table of at least as many buckets as entries. */
    method Resize()
      requires |buckets| > 0 && Represents(hash, buckets, contents) && elems == |contents|
      modifies this`buckets
      ensures Valid() && 4 <= |buckets| && (|buckets| == 4 || |buckets| < 2 * elems)
    {
      var n := NewLength(elems);
      hide Represents, ChainOk;
      var list: seq<seq<Handle>> := EmptyChains(n);
      var from := buckets;
      ghost var moved: map<Key, Handle> := map[];
      NothingMoved(hash, from, contents, list);
      for i := 0 to |from|
        invariant |list| == n && Represents(hash, list, moved) && Moved(hash, from, contents, moved, i, 0)
      {
        for j := 0 to |from[i]|
          invariant |list| == n && Represents(hash, list, moved) && Moved(hash, from, contents, moved, i, j)
        {
          var h := from[i][j];
          var b := Bucket(hash, h.key, n);
          MoveOne(hash, from, contents, moved, i, j);
          PushFront(hash, list, moved, h);
          list := list[b := [h] + list[b]];
          moved := moved[h.key := h];
        }
        NextBucket(hash, from, contents, moved, i);
      }
      AllMoved(hash, from, contents, moved);
      buckets := list;
    }
  }

  lemma NothingMoved(hash: Key -> nat, from: seq<seq<Handle>>, contents: map<Key, Handle>, list: seq<seq<Handle>>)
    requires |from| > 0 && |list| > 0 && forall i :: 0 <= i < |list| ==> list[i] == []
    ensures Represents(hash, list, map[]) && Moved(hash, from, contents, map[], 0, 0)
  {
  }

  /** Four, doubled until there is a bucket for every entry. */
  method NewLength(elems: nat) returns (n: nat)
    ensures elems <= n && 4 <= n && (n == 4 || n < 2 * elems)
  {
    n := 4;
    while n < elems
      invariant 4 <= n && (n == 4 || n < 2 * elems)
    {
      n := n * 2;
    }
  }

  /** The entries of the buckets before i and the first j of bucket i. */
  ghost predicate Moved(hash: Key -> nat, buckets: seq<seq<Handle>>, contents: map<Key, Handle>,
                        moved: map<Key, Handle>,
                        i: nat, j: nat)
    requires |buckets| > 0
  {
    && (forall key :: key in moved ==> key in contents && moved[key] == contents[key])
    && forall key :: key in contents ==>
         (key in moved <==>
            || Bucket(hash, key, |buckets|) < i
            || (Bucket(hash, key, |buckets|) == i < |buckets| && KeyIn(buckets[i], j, key)))
  }

  ghost predicate KeyIn(chain: seq<Handle>, j: nat, key: Key) {
    exists k :: 0 <= k < j && k < |chain| && chain[k].key == key
  }

  lemma MoveOne(hash: Key -> nat, buckets: seq<seq<Handle>>, contents: map<Key, Handle>, moved: map<Key, Handle>,
                i: nat, j: nat)
    requires Represents(hash, buckets, contents) && i < |buckets| && j < |buckets[i]|
    requires Moved(hash, buckets, contents, moved, i, j)
    ensures buckets[i][j].key !in moved
    ensures Moved(hash, buckets, contents, moved[buckets[i][j].key := buckets[i][j]], i, j + 1)
  {
    var h := buckets[i][j];
    assert ChainOk(hash, |buckets|, i, buckets[i], contents);
    forall key | key in contents
      ensures KeyIn(buckets[i], j + 1, key) <==> KeyIn(buckets[i], j, key) || key == h.key
    {
    }
  }

  lemma NextBucket(hash: Key -> nat, buckets: seq<seq<Handle>>, contents: map<Key, Handle>, moved: map<Key, Handle>,
                   i: nat)
    requires Represents(hash, buckets, contents) && i < |buckets|
    requires Moved(hash, buckets, contents, moved, i, |buckets[i]|)
    ensures Moved(hash, buckets, contents, moved, i + 1, 0)
  {
    forall key | key in contents && Bucket(hash, key, |buckets|) == i
      ensures KeyIn(buckets[i], |buckets[i]|, key)
    {
      var k :| 0 <= k < |buckets[i]| && buckets[i][k] == contents[key];
    }
  }

  lemma AllMoved(hash: Key -> nat, buckets: seq<seq<Handle>>, contents: map<Key, Handle>, moved: map<Key, Handle>)
    requires |buckets| > 0 && Moved(hash, buckets, contents, moved, |buckets|, 0)
    ensures moved == contents
  {
  }

  lemma PushFront(hash: Key -> nat, list: seq<seq<Handle>>, moved: map<Key, Handle>, h: Handle)
    requires Represents(hash, list, moved) && h.key !in moved
    ensures var b := Bucket(hash, h.key, |list|); Represents(hash, list[b := [h] + list[b]], moved[h.key := h])
  {
    var b := Bucket(hash, h.key, |list|);
    assert ChainOk(hash, |list|, b, list[b], moved);
    var chain := [h] + list[b];
    forall x: Handle | x in list[b]
      ensures x in chain
    {
    }
    BucketChanged(hash, list, moved, h.key, chain, moved[h.key := h]);
  }

  function EmptyChains(n: nat): (r: seq<seq<Handle>>)
    ensures |r| == n && forall i :: 0 <= i < n ==> r[i] == []
  {
    seq(n, _ => [])
  }

  /** A chain with one entry replaced. */
  lemma ChainSet(hash: Key -> nat, n: nat, i: nat, chain: seq<Handle>, contents: map<Key, Handle>, h: Handle, j: nat)
    requires n > 0 && ChainOk(hash, n, i, chain, contents) && j < |chain| && chain[j].key == h.key
    ensures ChainOk(hash, n, i, chain[j := h], contents[h.key := h]) && h in chain[j := h]
    ensures forall x: Handle :: x.key != h.key && x in chain ==> x in chain[j := h]
  {
    assert chain[j := h][j] == h;
    forall x: Handle | x in chain && x.key != h.key
      ensures x in chain[j := h]
    {
      var k :| 0 <= k < |chain| && chain[k] == x;
      assert chain[j := h][k] == x;
    }
  }

  /** A chain with an entry of a new key at its end. */
  lemma ChainAppend(hash: Key -> nat, n: nat, i: nat, chain: seq<Handle>, contents: map<Key, Handle>, h: Handle)
    requires n > 0 && ChainOk(hash, n, i, chain, contents) && i == Bucket(hash, h.key, n) && h.key !in contents
    ensures ChainOk(hash, n, i, chain + [h], contents[h.key := h]) && h in chain + [h]
    ensures forall x: Handle :: x in chain ==> x in chain + [h]
  {
    assert (chain + [h])[|chain|] == h;
  }

  lemma PutChain(hash: Key -> nat, buckets: seq<seq<Handle>>, contents: map<Key, Handle>, h: Handle, j: nat)
    requires Represents(hash, buckets, contents)
    requires j <= |buckets[Bucket(hash, h.key, |buckets|)]|
    requires var chain := buckets[Bucket(hash, h.key, |buckets|)];
             if h.key in contents then j < |chain| && chain[j] == contents[h.key] else j == |chain|
    ensures var chain := buckets[Bucket(hash, h.key, |buckets|)];
            Represents(hash,
                       buckets[Bucket(hash, h.key, |buckets|) := if j < |chain| then chain[j := h] else chain + [h]],
                       contents[h.key := h])
    ensures |contents[h.key := h]| == |contents| + if h.key in contents then 0 else 1
  {
    var b := Bucket(hash, h.key, |buckets|);
    var chain := buckets[b];
    assert ChainOk(hash, |buckets|, b, chain, contents);
    hide ChainOk;
    if j < |chain| {
      ChainSet(hash, |buckets|, b, chain, contents, h, j);
    } else {
      ChainAppend(hash, |buckets|, b, chain, contents, h);
    }
    BucketChanged(hash, buckets, contents, h.key, if j < |chain| then chain[j := h] else chain + [h],
                  contents[h.key := h]);
  }

  /** A chain with the entry of one key taken out. */
  lemma ChainCut(hash: Key -> nat, n: nat, i: nat, chain: seq<Handle>, contents: map<Key, Handle>, key: Key, j: nat)
    requires n > 0 && ChainOk(hash, n, i, chain, contents) && key in contents
    requires j < |chain| && chain[j] == contents[key] && chain[j].key == key
    ensures ChainOk(hash, n, i, chain[..j] + chain[j + 1..], contents - {key})
    ensures forall x: Handle :: x.key != key && x in chain ==> x in chain[..j] + chain[j + 1..]
  {
    var chain' := chain[..j] + chain[j + 1..];
    forall k | 0 <= k < |chain'|
      ensures chain'[k] == chain[if k < j then k else k + 1] && chain'[k].key != key
    {
    }
    forall x: Handle | x in chain && x.key != key
      ensures x in chain'
    {
      var k :| 0 <= k < |chain| && chain[k] == x;
      assert chain'[if k < j then k else k - 1] == x;
    }
  }

  lemma CutChain(hash: Key -> nat, buckets: seq<seq<Handle>>, contents: map<Key, Handle>, key: Key, j: nat)
    requires Represents(hash, buckets, contents) && key in contents
    requires j < |buckets[Bucket(hash, key, |buckets|)]| && buckets[Bucket(hash, key, |buckets|)][j] == contents[key]
    ensures var chain := buckets[Bucket(hash, key, |buckets|)];
            Represents(hash, buckets[Bucket(hash, key, |buckets|) := chain[..j] + chain[j + 1..]], contents - {key})
    ensures |contents - {key}| == |contents| - 1
  {
    var b := Bucket(hash, key, |buckets|);
    var chain := buckets[b];
    assert ChainOk(hash, |buckets|, b, chain, contents);
    hide ChainOk;
    ChainCut(hash, |buckets|, b, chain, contents, key, j);
    BucketChanged(hash, buckets, contents, key, chain[..j] + chain[j + 1..], contents - {key});
    assert contents.Keys == (contents - {key}).Keys + {key};
  }
}
