/** The filter block of a table: one filter for every 2 KB of file offsets, found again by arithmetic on offsets. */
module Filters {
  import opened Basics
  import opened Coding
  import opened Blooms

  const BASE_LG: nat := 11
  const BASE: nat := 2048

  // ---- the reader ----

  /** Where the array of filter offsets starts. */
  function ArrayOffset(contents: seq<byte>): nat
    requires |contents| >= 5
  {
    WordAt(contents, |contents| - 5)
  }

  /** offset >> baseLg. */
  function FilterIndex(offset: nat, baseLg: nat): nat {
    if baseLg == 0 then offset else FilterIndex(offset, baseLg - 1) / 2
  }

  lemma FilterIndexIs(offset: nat)
    ensures FilterIndex(offset, BASE_LG) == offset / BASE
  {
    assert FilterIndex(offset, 1) == offset / 2;
    assert FilterIndex(offset, 2) == offset / 4;
    assert FilterIndex(offset, 3) == offset / 8;
    assert FilterIndex(offset, 4) == offset / 16;
    assert FilterIndex(offset, 5) == offset / 32;
    assert FilterIndex(offset, 6) == offset / 64;
    assert FilterIndex(offset, 7) == offset / 128;
    assert FilterIndex(offset, 8) == offset / 256;
    assert FilterIndex(offset, 9) == offset / 512;
    assert FilterIndex(offset, 10) == offset / 1024;
  }

  /** FilterBlockReader::KeyMayMatch; whatever looks wrong counts as a match. */
  predicate MayMatch(hash: Hash, contents: seq<byte>, offset: nat, key: Key) {
    |contents| >= 5 && ArrayOffset(contents) <= |contents| - 5 ==>
      var tail, index := ArrayOffset(contents), FilterIndex(offset, contents[|contents| - 1]);
      index < (|contents| - 5 - tail) / 4 ==>
        var start, limit := WordAt(contents, tail + 4 * index), WordAt(contents, tail + 4 * index + 4);
        if start <= limit <= tail then Matches(hash, key, contents[start..limit]) else start != limit
  }

  /** A filter block that cannot be right lets every key through, except that an empty range beyond the filters matches
      nothing. */
  lemma DamagedMatches(hash: Hash, contents: seq<byte>, offset: nat, key: Key)
    ensures |contents| < 5 || WordAt(contents, |contents| - 5) > |contents| - 5 ==>
              MayMatch(hash, contents, offset, key)
    ensures |contents| >= 5 && WordAt(contents, |contents| - 5) <= |contents| - 5 ==>
              var tail, index := WordAt(contents, |contents| - 5), FilterIndex(offset, contents[|contents| - 1]);
              && (index >= (|contents| - 5 - tail) / 4 ==> MayMatch(hash, contents, offset, key))
              && (index < (|contents| - 5 - tail) / 4 ==>
                    var start, limit := WordAt(contents, tail + 4 * index), WordAt(contents, tail + 4 * index + 4);
                    start > limit || (limit > tail && start < limit) ==> MayMatch(hash, contents, offset, key))
  {
    hide Matches, WordAt, FilterIndex;
  }

  // ---- the builder ----

  /** Filter i of those finished so far ends where the next one starts. */
  function Limit(filterOffsets: seq<nat>, result: seq<byte>, i: nat): nat
    requires i < |filterOffsets|
  {
    if i + 1 < |filterOffsets| then filterOffsets[i + 1] else |result|
  }

  predicate OffsetsOk(filterOffsets: seq<nat>, result: seq<byte>) {
    && (forall i, j :: 0 <= i < j < |filterOffsets| ==> filterOffsets[i] <= filterOffsets[j])
    && (forall i :: 0 <= i < |filterOffsets| ==> filterOffsets[i] <= |result|)
  }

  predicate Finished(hash: Hash, filterOffsets: seq<nat>, result: seq<byte>, i: nat, key: Key)
    requires i < |filterOffsets| && OffsetsOk(filterOffsets, result)
  {
    Matches(hash, key, result[filterOffsets[i]..Limit(filterOffsets, result, i)])
  }

  predicate StartsOk(flat: seq<byte>, start: seq<nat>) {
    && (forall m :: 0 <= m < |start| ==> start[m] <= |flat|)
    && (forall m, n :: 0 <= m < n < |start| ==> start[m] <= start[n])
  }

  /** The key at place i of keys laid end to end. */
  function Piece(flat: seq<byte>, start: seq<nat>, i: nat): Key
    requires i < |start| && StartsOk(flat, start)
  {
    flat[start[i]..if i + 1 < |start| then start[i + 1] else |flat|]
  }

  predicate Pending(flat: seq<byte>, start: seq<nat>, key: Key)
    requires StartsOk(flat, start)
  {
    exists m :: 0 <= m < |start| && Piece(flat, start, m) == key
  }

  /** The keys added for the i-th range of offsets. */
  function KeysAt(added: seq<(nat, Key)>, i: nat): set<Key> {
    set a | a in added && a.0 / BASE == i :: a.1
  }

  /** The filter is empty if there are no keys, and otherwise has exactly the bits that the keys ask for. */
  ghost predicate Only(hash: Hash, k: nat, filter: seq<byte>, keys: set<Key>) {
    && (keys == {} ==> filter == [])
    && (filter != [] ==>
          && |filter| > 1 && filter[|filter| - 1] == k
          && ExactBits(hash, k, filter[..|filter| - 1], keys))
  }

  /** Every finished filter is made of the keys of its range, and what is pending belongs to the next one. */
  ghost predicate Exact(hash: Hash, k: nat, flat: seq<byte>, start: seq<nat>, filterOffsets: seq<nat>,
                        result: seq<byte>,
                        added: seq<(nat, Key)>)
    requires StartsOk(flat, start) && OffsetsOk(filterOffsets, result)
  {
    && (forall m :: 0 <= m < |start| ==> Piece(flat, start, m) in KeysAt(added, |filterOffsets|))
    && (forall a :: a in added ==> a.0 / BASE <= |filterOffsets|)
    && forall i :: 0 <= i < |filterOffsets| ==>
         Only(hash, k, result[filterOffsets[i]..Limit(filterOffsets, result, i)], KeysAt(added, i))
  }

  class FilterBlockBuilder {
    const hash: Hash
    const bitsPerKey: nat
    const k: nat
    /** The keys not yet in a filter, laid end to end, and where each starts. */
    var flat: seq<byte>
    var start: seq<nat>
    var result: seq<byte>
    var filterOffsets: seq<nat>
    /** The keys added, each with the offset of its block, and the offset of the present block. */
    ghost var added: seq<(nat, Key)>
    ghost var block: nat

    ghost predicate Flattened()
      reads this
    {
      StartsOk(flat, start)
    }

    /** The filter of a key's block is finished and has the key, or is the next one and the key is pending. */
    ghost predicate Kept(offset: nat, key: Key)
      requires Flattened() && OffsetsOk(filterOffsets, result)
      reads this
    {
      if offset / BASE < |filterOffsets| then Finished(hash, filterOffsets, result, offset / BASE, key)
      else offset / BASE == |filterOffsets| && Pending(flat, start, key)
    }

    ghost predicate Valid()
      reads this
    {
      && 1 <= k <= 30 && Flattened() && OffsetsOk(filterOffsets, result)
      && (forall a :: a in added ==> Kept(a.0, a.1))
      && Exact(hash, k, flat, start, filterOffsets, result, added) && |filterOffsets| == block / BASE
    }

    constructor (hash: Hash, bitsPerKey: nat, k: nat)
      requires 1 <= k <= 30
      ensures Valid() && added == [] && block == 0 && result == []
    {
      this.hash, this.bitsPerKey, this.k := hash, bitsPerKey, k;
      flat, start, result, filterOffsets, added, block := [], [], [], [], [], 0;
    }

    method AddKey(key: Key)
      requires Valid()
      modifies this`flat, this`start, this`added
      ensures Valid() && added == old(added) + [(block, key)]
    {
      hide Finished, StartsOk, Pending, Exact;
      ghost var flat0, start0 := flat, start;
      AddedExact(hash, k, flat, start, filterOffsets, result, added, block, key);
      start := start + [|flat|];
      flat := flat + key;
      added := added + [(block, key)];
      AddedPending(flat0, start0, key);
      forall a | a in added && a.0 / BASE == |filterOffsets|
        ensures Pending(flat, start, a.1)
      {
        if a in old(added) {
          StillPending(flat0, start0, key, a.1);
        }
      }
    }

    /** Closes the present filter over the pending keys. */
    method GenerateFilter()
      requires 1 <= k <= 30 && Flattened() && OffsetsOk(filterOffsets, result)
      requires Exact(hash, k, flat, start, filterOffsets, result, added)
      requires forall a :: a in added ==> Kept(a.0, a.1)
      modifies this`flat, this`start, this`result, this`filterOffsets
      ensures Flattened() && OffsetsOk(filterOffsets, result) && forall a :: a in added ==> Kept(a.0, a.1)
      ensures Exact(hash, k, flat, start, filterOffsets, result, added)
      ensures |filterOffsets| == |old(filterOffsets)| + 1 && start == [] && old(result) <= result
    {
      hide Matches, Exact;
      var n := |start|;
      ghost var offsets0, result0 := filterOffsets, result;
      if n == 0 {
        assert KeysAt(added, |filterOffsets|) == {} by {
          assert forall a :: a in added && a.0 / BASE == |filterOffsets| ==> Kept(a.0, a.1);
        }
        assert result[|result|..] == [];
        GeneratedExact(hash, k, flat, start, filterOffsets, result, added, result);
        filterOffsets := filterOffsets + [|result|];
        forall a | a in added
          ensures Kept(a.0, a.1)
        {
          FinishedKept(hash, offsets0, result0, result, a.0 / BASE, a.1);
        }
        return;
      }
      var keys: seq<Key> := [];
      for i := 0 to n
        invariant |keys| == i && forall m :: 0 <= m < i ==> keys[m] == Piece(flat, start, m)
      {
        keys := keys + [Piece(flat, start, i)];
      }
      filterOffsets := filterOffsets + [|result|];
      result := CreateFilter(hash, bitsPerKey, k, keys, result);
      PendingKeys(hash, k, flat, start, offsets0, result0, added, keys);
      CreatedOnly(hash, k, result[|result0|..], keys, KeysAt(added, |offsets0|));
      GeneratedExact(hash, k, flat, start, offsets0, result0, added, result);
      forall a | a in added && a.0 / BASE == |offsets0|
        ensures a.1 in keys
      {
        var m :| 0 <= m < |start| && Piece(flat, start, m) == a.1;
        assert keys[m] == a.1;
      }
      flat, start := [], [];
      forall a | a in added
        ensures Kept(a.0, a.1)
      {
        if a.0 / BASE < |offsets0| {
          FinishedKept(hash, offsets0, result0, result, a.0 / BASE, a.1);
        } else {
          assert a.1 in keys;
          assert result[|result0|..|result|] == result[|result0|..];
        }
      }
    }

    /** Keys that follow belong to the block at this offset. */
    method StartBlock(offset: nat)
      requires Valid() && block <= offset
      modifies this
      ensures Valid() && block == offset && added == old(added)
    {
      var index := offset / BASE;
      while index > |filterOffsets|
        invariant Flattened() && OffsetsOk(filterOffsets, result) && forall a :: a in added ==> Kept(a.0, a.1)
        invariant Exact(hash, k, flat, start, filterOffsets, result, added)
        invariant |filterOffsets| <= index && added == old(added)
      {
        GenerateFilter();
      }
      block := offset;
    }

    /** The last filter, the array of offsets, where the array starts, and the base. The filter block has no false
        negatives: whatever was added for a block may match at that block's offset, if the offsets fit 32 bits. */
    method Finish() returns (contents: seq<byte>)
      requires Valid()
      modifies this
      ensures old(result) <= result && result <= contents
      ensures |result| < TWO32 ==> forall a :: a in old(added) ==> MayMatch(hash, contents, a.0, a.1)
      ensures Flattened() && OffsetsOk(filterOffsets, result)
      ensures Exact(hash, k, flat, start, filterOffsets, result, added) && added == old(added)
      ensures |result| < TWO32 ==> forall offset: nat, key {:trigger MayMatch(hash, contents, offset, key)} ::
                offset / 2048 < |filterOffsets| ==>
                  (MayMatch(hash, contents, offset, key) <==> Finished(hash, filterOffsets, result, offset / 2048, key))
    {
      hide Matches, MayMatch, Finished, Fixed32, EncodeWords, Exact;
      if start != [] {
        GenerateFilter();
      }
      var tail := |result|;
      contents := AppendWords(result, filterOffsets);
      contents := contents + Fixed32(tail % TWO32);
      contents := contents + [BASE_LG];
      if |result| < TWO32 {
        forall a | a in added
          ensures MayMatch(hash, contents, a.0, a.1)
        {
          assert Kept(a.0, a.1);
          FinishedMayMatch(hash, filterOffsets, result, contents, a.0, a.1);
        }
        forall offset: nat, key | offset / BASE < |filterOffsets|
          ensures MayMatch(hash, contents, offset, key)
                  <==> Finished(hash, filterOffsets, result, offset / BASE, key)
        {
          FinishedMayMatch(hash, filterOffsets, result, contents, offset, key);
        }
      }
    }
  }

  lemma AddedExact(hash: Hash, k: nat, flat: seq<byte>, start: seq<nat>, offsets: seq<nat>, result: seq<byte>,
                   added: seq<(nat, Key)>, block: nat, key: Key)
    requires StartsOk(flat, start) && OffsetsOk(offsets, result) && block / BASE == |offsets|
    requires Exact(hash, k, flat, start, offsets, result, added)
    ensures StartsOk(flat + key, start + [|flat|])
    ensures Exact(hash, k, flat + key, start + [|flat|], offsets, result, added + [(block, key)])
  {
    hide Only, StartsOk, KeysAt, Piece;
    PieceKept(flat, start, key, |start|);
    var more := added + [(block, key)];
    assert forall a :: a in more <==> a in added || a == (block, key);
    forall i
      ensures KeysAt(more, i) == KeysAt(added, i) + if block / BASE == i then {key} else {}
    {
      OneMoreKey(added, block, key, i);
    }
    var starts := start + [|flat|];
    forall m | 0 <= m < |starts|
      ensures Piece(flat + key, starts, m) in KeysAt(more, |offsets|)
    {
      PieceKept(flat, start, key, m);
    }
    forall i | 0 <= i < |offsets|
      ensures Only(hash, k, result[offsets[i]..Limit(offsets, result, i)], KeysAt(more, i))
    {
      assert KeysAt(more, i) == KeysAt(added, i);
    }
  }

  lemma OneMoreKey(added: seq<(nat, Key)>, block: nat, key: Key, i: nat)
    ensures KeysAt(added + [(block, key)], i) == KeysAt(added, i) + if block / BASE == i then {key} else {}
  {
    var more := added + [(block, key)];
    assert forall a :: a in more <==> a in added || a == (block, key);
    assert (block, key) in more;
  }

  /** What is pending are the keys of the next range. */
  lemma PendingKeys(hash: Hash, k: nat, flat: seq<byte>, start: seq<nat>, offsets: seq<nat>, result: seq<byte>,
                    added: seq<(nat, Key)>, keys: seq<Key>)
    requires StartsOk(flat, start) && OffsetsOk(offsets, result) && |keys| == |start|
    requires Exact(hash, k, flat, start, offsets, result, added)
    requires forall m :: 0 <= m < |start| ==> keys[m] == Piece(flat, start, m)
    requires forall a :: a in added && a.0 / BASE == |offsets| ==> Pending(flat, start, a.1)
    ensures forall key :: key in keys <==> key in KeysAt(added, |offsets|)
  {
    hide Only, StartsOk, Piece;
    forall key | key in KeysAt(added, |offsets|)
      ensures key in keys
    {
      var m :| 0 <= m < |start| && Piece(flat, start, m) == key;
      assert keys[m] == key;
    }
  }

  /** One more filter, made of what was pending. */
  lemma GeneratedExact(hash: Hash, k: nat, flat: seq<byte>, start: seq<nat>, offsets: seq<nat>, result: seq<byte>,
                       added: seq<(nat, Key)>, result': seq<byte>)
    requires StartsOk(flat, start) && OffsetsOk(offsets, result) && result <= result'
    requires Exact(hash, k, flat, start, offsets, result, added)
    requires Only(hash, k, result'[|result|..], KeysAt(added, |offsets|))
    ensures OffsetsOk(offsets + [|result|], result')
    ensures forall f: seq<byte> :: Exact(hash, k, f, [], offsets + [|result|], result', added)
  {
    hide Only;
    var longer := offsets + [|result|];
    forall i | 0 <= i < |longer|
      ensures result'[longer[i]..Limit(longer, result', i)]
              == if i < |offsets| then result[offsets[i]..Limit(offsets, result, i)] else result'[|result|..]
    {
      if i < |offsets| {
        assert Limit(longer, result', i) == Limit(offsets, result, i);
      }
    }
  }

  /** What CreateFilter makes of the keys. */
  lemma CreatedOnly(hash: Hash, k: nat, filter: seq<byte>, keys: seq<Key>, all: set<Key>)
    requires |filter| > 1 && filter[|filter| - 1] == k && keys != [] && forall key :: key in keys <==> key in all
    requires ExactBits(hash, k, filter[..|filter| - 1], Members(keys))
    ensures Only(hash, k, filter, all)
  {
    assert keys[0] in all;
    assert Members(keys) == all;
  }

  /** Every probe of the key is asked for by some of the keys. */
  predicate AllAsked(hash: Hash, k: nat, keys: set<Key>, key: Key, bits: nat)
    requires bits > 0
  {
    forall j :: 0 <= j < k ==> Asked(hash, k, keys, bits, ProbeAt(hash, key, j, bits))
  }

  /** A key matches a finished filter exactly if there are keys in it and they ask for all of its probes; so a key that
      is not among them matches only by a coincidence of hashes. */
  lemma MatchesIff(hash: Hash, k: nat, filter: seq<byte>, keys: set<Key>, key: Key)
    requires 1 <= k <= 30 && Only(hash, k, filter, keys)
    ensures Matches(hash, key, filter) <==> filter != [] && AllAsked(hash, k, keys, key, 8 * (|filter| - 1))
  {
    hide Asked, Bit, HasBit;
    if filter != [] {
      var a := filter[..|filter| - 1];
      assert Matches(hash, key, filter) <==> Probed(hash, key, a, k);
      forall j | 0 <= j < k
        ensures HasBit(a, Probe(hash(key), j) % (8 * |a|)) <==>
                  Asked(hash, k, keys, 8 * |a|, ProbeAt(hash, key, j, 8 * |a|))
      {
      }
    }
  }

  /** A key laid behind the others is pending. */
  lemma AddedPending(flat: seq<byte>, start: seq<nat>, key: Key)
    requires StartsOk(flat, start)
    ensures StartsOk(flat + key, start + [|flat|]) && Pending(flat + key, start + [|flat|], key)
  {
    PieceKept(flat, start, key, |start|);
  }

  /** The others stay pending. */
  lemma StillPending(flat: seq<byte>, start: seq<nat>, key: Key, other: Key)
    requires StartsOk(flat, start) && Pending(flat, start, other)
    ensures StartsOk(flat + key, start + [|flat|]) && Pending(flat + key, start + [|flat|], other)
  {
    var m :| 0 <= m < |start| && Piece(flat, start, m) == other;
    PieceKept(flat, start, key, m);
  }

  lemma PieceKept(flat: seq<byte>, start: seq<nat>, key: Key, m: nat)
    requires StartsOk(flat, start) && m <= |start|
    ensures StartsOk(flat + key, start + [|flat|])
    ensures Piece(flat + key, start + [|flat|], m) == if m < |start| then Piece(flat, start, m) else key
  {
    if m < |start| {
      var limit := if m + 1 < |start| then start[m + 1] else |flat|;
      assert (flat + key)[start[m]..limit] == flat[start[m]..limit];
    } else {
      assert (flat + key)[|flat|..] == key;
    }
  }

  /** A finished filter stays where it is when the next one is appended. */
  lemma FinishedKept(hash: Hash, offsets: seq<nat>, result: seq<byte>, result': seq<byte>, i: nat, key: Key)
    requires OffsetsOk(offsets, result) && result <= result' && i < |offsets| && Finished(hash, offsets, result, i, key)
    ensures OffsetsOk(offsets + [|result|], result') && Finished(hash, offsets + [|result|], result', i, key)
  {
    var limit := Limit(offsets, result, i);
    assert Limit(offsets + [|result|], result', i) == limit;
    assert result'[offsets[i]..limit] == result[offsets[i]..limit];
  }

  /** The reader finds the filter of an offset where the builder put it. */
  lemma FinishedMayMatch(hash: Hash, offsets: seq<nat>, result: seq<byte>, contents: seq<byte>, offset: nat, key: Key)
    requires OffsetsOk(offsets, result) && |result| < TWO32
    requires contents == result + EncodeWords(offsets) + Fixed32(|result|) + [BASE_LG]
    requires offset / BASE < |offsets|
    ensures MayMatch(hash, contents, offset, key) <==> Finished(hash, offsets, result, offset / BASE, key)
  {
    FilterIndexIs(offset);
    hide Matches, WordAt, EncodeWords, Fixed32, FilterIndex, MayMatch, OffsetsOk;
    var tail, i := |result|, offset / BASE;
    OffsetInContents(result, offsets, contents, i);
    OffsetInContents(result, offsets, contents, i + 1);
    OffsetInContents(result, offsets, contents, |offsets|);
    var start, limit := offsets[i], Limit(offsets, result, i);
    LimitInside(offsets, result, i);
    assert (|contents| - 5 - tail) / 4 == |offsets|;
    assert contents[start..limit] == result[start..limit] by {
      SameFront(result, EncodeWords(offsets), Fixed32(|result|), [BASE_LG], start, limit);
    }
    FoundMayMatch(hash, contents, offset, key, start, limit);
  }

  lemma LimitInside(offsets: seq<nat>, result: seq<byte>, i: nat)
    requires OffsetsOk(offsets, result) && i < |offsets|
    ensures offsets[i] <= Limit(offsets, result, i) <= |result|
  {
  }

  lemma SameFront(a: seq<byte>, b: seq<byte>, c: seq<byte>, d: seq<byte>, start: nat, limit: nat)
    requires start <= limit <= |a|
    ensures (a + b + c + d)[start..limit] == a[start..limit]
  {
  }

  /** The reader's arithmetic, once the words it meets are known. */
  lemma FoundMayMatch(hash: Hash, contents: seq<byte>, offset: nat, key: Key, start: nat, limit: nat)
    requires |contents| >= 5 && contents[|contents| - 1] == BASE_LG && ArrayOffset(contents) <= |contents| - 5
    requires FilterIndex(offset, BASE_LG) < (|contents| - 5 - ArrayOffset(contents)) / 4
    requires WordAt(contents, ArrayOffset(contents) + 4 * FilterIndex(offset, BASE_LG)) == start
    requires WordAt(contents, ArrayOffset(contents) + 4 * FilterIndex(offset, BASE_LG) + 4) == limit
    requires start <= limit <= ArrayOffset(contents)
    ensures MayMatch(hash, contents, offset, key) <==> Matches(hash, key, contents[start..limit])
  {
    hide Matches, WordAt, FilterIndex;
  }

  lemma OffsetInContents(result: seq<byte>, offsets: seq<nat>, contents: seq<byte>, i: nat)
    requires i <= |offsets| && OffsetsOk(offsets, result) && |result| < TWO32
    requires contents == result + EncodeWords(offsets) + Fixed32(|result|) + [BASE_LG]
    ensures |contents| == |result| + 4 * |offsets| + 5 && contents[|contents| - 1] == BASE_LG
    ensures WordAt(contents, |result| + 4 * i) == if i < |offsets| then offsets[i] else |result|
  {
    hide EncodeWords, Fixed32, WordAt;
    var all := offsets + [|result|];
    WordsLast(offsets, |result|);
    WordsBack(all, i, [BASE_LG]);
    RegroupFour(result, EncodeWords(offsets), Fixed32(|result|), [BASE_LG]);
    WordSkips(result, EncodeWords(all) + [BASE_LG], 4 * i);
  }
}
