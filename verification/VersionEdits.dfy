/** Version edits as records of the manifest. */
module VersionEdits {
  import opened Basics
  import opened Coding
  import Wire
  import Versions

  /** Internal keys stay encoded here. */
  datatype NewFile = NewFile(number: nat, size: nat, smallest: seq<byte>, largest: seq<byte>)

  /** What an edit says. The deleted files are an ordered set of pairs, listed in its order. */
  datatype Contents = Contents(comparator: Option<seq<byte>>, logNumber: Option<nat>, prevLogNumber: Option<nat>,
                               nextFile: Option<nat>, lastSequence: Option<nat>, pointers: seq<(nat, seq<byte>)>,
                               deleted: seq<(nat, nat)>, added: seq<(nat, NewFile)>)

  datatype Counter = LogNumber | PrevLogNumber | NextFile | LastSequence

  /** One tagged item of the encoding. */
  datatype Item =
    | Comparator(name: seq<byte>)
    | Number(counter: Counter, n: nat)
    | CompactPointer(level: nat, key: seq<byte>)
    | DeletedFile(level: nat, n: nat)
    | AddedFile(level: nat, file: NewFile)

  const COMPARATOR: nat := 1
  const LOG_NUMBER: nat := 2
  const NEXT_FILE_NUMBER: nat := 3
  const LAST_SEQUENCE: nat := 4
  const COMPACT_POINTER: nat := 5
  const DELETED_FILE: nat := 6
  const NEW_FILE: nat := 7
  const PREV_LOG_NUMBER: nat := 9

  // ---- the ordered set of deleted files ----

  predicate PairBefore(a: (nat, nat), b: (nat, nat)) {
    a.0 < b.0 || (a.0 == b.0 && a.1 < b.1)
  }

  predicate Ascending(pairs: seq<(nat, nat)>) {
    forall i, j :: 0 <= i < j < |pairs| ==> PairBefore(pairs[i], pairs[j])
  }

  function InsertPair(pairs: seq<(nat, nat)>, p: (nat, nat)): (r: seq<(nat, nat)>)
    ensures forall q :: q in r <==> q == p || q in pairs
  {
    if pairs == [] then [p]
    else if pairs[0] == p then pairs
    else if PairBefore(p, pairs[0]) then [p] + pairs
    else [pairs[0]] + InsertPair(pairs[1..], p)
  }

  lemma {:induction false} InsertKeepsOrder(pairs: seq<(nat, nat)>, p: (nat, nat))
    requires Ascending(pairs)
    ensures Ascending(InsertPair(pairs, p))
  {
    if pairs != [] && pairs[0] != p && !PairBefore(p, pairs[0]) {
      InsertKeepsOrder(pairs[1..], p);
      var rest := InsertPair(pairs[1..], p);
      forall j | 0 <= j < |rest|
        ensures PairBefore(pairs[0], rest[j])
      {
        assert rest[j] in rest;
      }
    }
  }

  lemma {:induction false} InsertLast(pairs: seq<(nat, nat)>, p: (nat, nat))
    requires Ascending(pairs + [p])
    ensures InsertPair(pairs, p) == pairs + [p]
  {
    if pairs != [] {
      assert (pairs + [p])[0] == pairs[0] && (pairs + [p])[|pairs|] == p;
      assert PairBefore(pairs[0], p);
      assert (pairs + [p])[1..] == pairs[1..] + [p];
      InsertLast(pairs[1..], p);
      assert [pairs[0]] + (pairs[1..] + [p]) == pairs + [p];
    }
  }

  // ---- encoding ----

  function CounterTag(counter: Counter): nat {
    match counter
    case LogNumber => LOG_NUMBER
    case PrevLogNumber => PREV_LOG_NUMBER
    case NextFile => NEXT_FILE_NUMBER
    case LastSequence => LAST_SEQUENCE
  }

  function TagOf(item: Item): nat {
    match item
    case Comparator(_) => COMPARATOR
    case Number(counter, _) => CounterTag(counter)
    case CompactPointer(_, _) => COMPACT_POINTER
    case DeletedFile(_, _) => DELETED_FILE
    case AddedFile(_, _) => NEW_FILE
  }

  function EncodeFile(f: NewFile): seq<byte> {
    Wire.EncodeVarint(f.number) + (Wire.EncodeVarint(f.size) + (PutSlice(f.smallest) + PutSlice(f.largest)))
  }

  function EncodeBody(item: Item): seq<byte> {
    match item
    case Comparator(name) => PutSlice(name)
    case CompactPointer(level, key) => Wire.EncodeVarint(level) + PutSlice(key)
    case DeletedFile(level, n) => Wire.EncodeVarint(level) + Wire.EncodeVarint(n)
    case AddedFile(level, f) => Wire.EncodeVarint(level) + EncodeFile(f)
    case Number(_, n) => Wire.EncodeVarint(n)
  }

  function EncodeItem(item: Item): seq<byte> {
    Wire.EncodeVarint(TagOf(item)) + EncodeBody(item)
  }

  function EncodeItems(items: seq<Item>): seq<byte> {
    if items == [] then [] else EncodeItem(items[0]) + EncodeItems(items[1..])
  }

  lemma {:induction false} EncodeJoin(a: seq<Item>, b: seq<Item>)
    ensures EncodeItems(a + b) == EncodeItems(a) + EncodeItems(b)
  {
    if a == [] {
      assert a + b == b;
    } else {
      hide EncodeItem;
      assert (a + b)[1..] == a[1..] + b && (a + b)[0] == a[0];
      EncodeJoin(a[1..], b);
      assert EncodeItem(a[0]) + (EncodeItems(a[1..]) + EncodeItems(b))
        == EncodeItem(a[0]) + EncodeItems(a[1..]) + EncodeItems(b);
    }
  }

  function CounterItem(counter: Counter, n: Option<nat>): seq<Item> {
    if n.Some? then [Number(counter, n.value)] else []
  }

  function Header(c: Contents): seq<Item> {
    (if c.comparator.Some? then [Comparator(c.comparator.value)] else [])
    + CounterItem(LogNumber, c.logNumber) + CounterItem(PrevLogNumber, c.prevLogNumber)
    + CounterItem(NextFile, c.nextFile) + CounterItem(LastSequence, c.lastSequence)
  }

  function Pointers(pointers: seq<(nat, seq<byte>)>): seq<Item> {
    seq(|pointers|, i requires 0 <= i < |pointers| => CompactPointer(pointers[i].0, pointers[i].1))
  }

  function Deletions(deleted: seq<(nat, nat)>): seq<Item> {
    seq(|deleted|, i requires 0 <= i < |deleted| => DeletedFile(deleted[i].0, deleted[i].1))
  }

  function Additions(added: seq<(nat, NewFile)>): seq<Item> {
    seq(|added|, i requires 0 <= i < |added| => AddedFile(added[i].0, added[i].1))
  }

  /** The items of an edit, in the order they are written. */
  function ItemsOf(c: Contents): seq<Item> {
    Header(c) + Pointers(c.pointers) + Deletions(c.deleted) + Additions(c.added)
  }

  /** Each item starts with its number, which its fields follow. */
  lemma ItemBytesAre(item: Item)
    ensures item.Comparator? ==> EncodeItem(item) == [1] + PutSlice(item.name)
    ensures item.Number? ==>
              EncodeItem(item) == [match item.counter
                                   case LogNumber => 2
                                   case NextFile => 3
                                   case LastSequence => 4
                                   case PrevLogNumber => 9] + Wire.EncodeVarint(item.n)
    ensures item.CompactPointer? ==> EncodeItem(item) == [5] + (Wire.EncodeVarint(item.level) + PutSlice(item.key))
    ensures item.DeletedFile? ==> EncodeItem(item) == [6] + (Wire.EncodeVarint(item.level) + Wire.EncodeVarint(item.n))
    ensures item.AddedFile? ==>
              EncodeItem(item) == [7] + (Wire.EncodeVarint(item.level)
                                         + (Wire.EncodeVarint(item.file.number)
                                            + (Wire.EncodeVarint(item.file.size)
                                               + (PutSlice(item.file.smallest) + PutSlice(item.file.largest)))))
  {
    hide PutSlice;
    assert Wire.EncodeVarint(TagOf(item)) == [TagOf(item)];
    hide Wire.EncodeVarint;
  }

  // ---- decoding ----

  /** GetLevel: a level there is. */
  function GetLevel(s: seq<byte>): (r: Option<Wire.Parsed<nat>>)
    ensures r.Some? ==> |r.value.rest| < |s| && r.value.value < Versions.NUM_LEVELS
  {
    var n := GetVarint32(s);
    if n.Some? && n.value.value < Versions.NUM_LEVELS then n else None
  }

  function GetFile(s: seq<byte>): (r: Option<Wire.Parsed<NewFile>>)
    ensures r.Some? ==> |r.value.rest| < |s|
  {
    var n := Wire.DecodeVarint(s);
    if n.None? then None
    else
      var size := Wire.DecodeVarint(n.value.rest);
      if size.None? then None
      else
        var lo := GetSlice(size.value.rest);
        if lo.None? then None
        else
          var hi := GetSlice(lo.value.rest);
          if hi.None? then None
          else Some(Wire.Parsed(NewFile(n.value.value, size.value.value, lo.value.value, hi.value.value),
            hi.value.rest))
  }

  function GetNumber(s: seq<byte>, counter: Counter): (r: Option<Wire.Parsed<Item>>)
    ensures r.Some? ==> |r.value.rest| < |s|
  {
    var n := Wire.DecodeVarint(s);
    if n.None? then None else Some(Wire.Parsed(Number(counter, n.value.value), n.value.rest))
  }

  /** The part of an item behind its tag. */
  function GetBody(tag: nat, s: seq<byte>): (r: Option<Wire.Parsed<Item>>)
    ensures r.Some? ==> |r.value.rest| < |s|
  {
    if tag == COMPARATOR then
      var b := GetSlice(s);
      if b.None? then None else Some(Wire.Parsed(Comparator(b.value.value), b.value.rest))
    else if tag == LOG_NUMBER then GetNumber(s, LogNumber)
    else if tag == PREV_LOG_NUMBER then GetNumber(s, PrevLogNumber)
    else if tag == NEXT_FILE_NUMBER then GetNumber(s, NextFile)
    else if tag == LAST_SEQUENCE then GetNumber(s, LastSequence)
    else if tag in {COMPACT_POINTER, DELETED_FILE, NEW_FILE} then
      var level := GetLevel(s);
      if level.None? then None
      else if tag == DELETED_FILE then
        var n := Wire.DecodeVarint(level.value.rest);
        if n.None? then None else Some(Wire.Parsed(DeletedFile(level.value.value, n.value.value), n.value.rest))
      else if tag == COMPACT_POINTER then
        var key := GetSlice(level.value.rest);
        if key.None? then None
          else Some(Wire.Parsed(CompactPointer(level.value.value, key.value.value), key.value.rest))
      else
        var f := GetFile(level.value.rest);
        if f.None? then None else Some(Wire.Parsed(AddedFile(level.value.value, f.value.value), f.value.rest))
    else None
  }

  function GetItem(s: seq<byte>): (r: Option<Wire.Parsed<Item>>)
    ensures r.Some? ==> |r.value.rest| < |s|
  {
    var tag := GetVarint32(s);
    if tag.None? then None else GetBody(tag.value.value, tag.value.rest)
  }

  function SetCounter(c: Contents, counter: Counter, n: Option<nat>): Contents {
    match counter
    case LogNumber => c.(logNumber := n)
    case PrevLogNumber => c.(prevLogNumber := n)
    case NextFile => c.(nextFile := n)
    case LastSequence => c.(lastSequence := n)
  }

  /** What an item does to the fields. */
  function Apply(c: Contents, item: Item): Contents {
    match item
    case Comparator(name) => c.(comparator := Some(name))
    case Number(counter, n) => SetCounter(c, counter, Some(n))
    case CompactPointer(level, key) => c.(pointers := c.pointers + [(level, key)])
    case DeletedFile(level, n) => c.(deleted := InsertPair(c.deleted, (level, n)))
    case AddedFile(level, f) => c.(added := c.added + [(level, f)])
  }

  function ApplyAll(c: Contents, items: seq<Item>): Contents
    decreases |items|
  {
    if items == [] then c else ApplyAll(Apply(c, items[0]), items[1..])
  }

  function DecodeItems(s: seq<byte>, c: Contents): Option<Contents>
    decreases |s|
  {
    if s == [] then Some(c)
    else
      var item := GetItem(s);
      if item.None? then None else DecodeItems(item.value.rest, Apply(c, item.value.value))
  }

  /** Clear, which leaves the compaction pointers alone. */
  function Cleared(c: Contents): Contents {
    Contents(None, None, None, None, None, c.pointers, [], [])
  }

  /** Items with any other number, and levels there are not, are refused. */
  lemma OtherItemsRefused(tag: nat, s: seq<byte>)
    ensures tag !in {1, 2, 3, 4, 5, 6, 7, 9} ==> GetBody(tag, s) == None
    ensures tag in {5, 6, 7} && (GetVarint32(s).Some? ==> GetVarint32(s).value.value >= 7) ==> GetBody(tag, s) == None
  {
  }

  // ---- the round trip ----

  predicate FileFits(f: NewFile) {
    f.number < TWO64 && f.size < TWO64 && |f.smallest| < TWO32 && |f.largest| < TWO32
  }

  predicate ItemFits(item: Item) {
    match item
    case Comparator(name) => |name| < TWO32
    case CompactPointer(level, key) => level < Versions.NUM_LEVELS && |key| < TWO32
    case DeletedFile(level, n) => level < Versions.NUM_LEVELS && n < TWO64
    case AddedFile(level, f) => level < Versions.NUM_LEVELS && FileFits(f)
    case Number(_, n) => n < TWO64
  }

  lemma GetPutFile(f: NewFile, rest: seq<byte>)
    requires FileFits(f)
    ensures GetFile(EncodeFile(f) + rest) == Some(Wire.Parsed(f, rest))
  {
    hide Wire.EncodeVarint, Wire.DecodeVarint, GetSlice, PutSlice;
    var hi := PutSlice(f.largest) + rest;
    var lo := PutSlice(f.smallest) + hi;
    var size := Wire.EncodeVarint(f.size) + lo;
    GetPutSlice(f.largest, rest);
    GetPutSlice(f.smallest, hi);
    Wire.VarintRoundTrip(f.size, lo);
    Wire.VarintRoundTrip(f.number, size);
    assert EncodeFile(f) + rest == Wire.EncodeVarint(f.number) + size;
  }

  lemma GetPutBody(item: Item, rest: seq<byte>)
    requires ItemFits(item)
    ensures GetBody(TagOf(item), EncodeBody(item) + rest) == Some(Wire.Parsed(item, rest))
  {
    hide Wire.EncodeVarint, Wire.DecodeVarint, GetSlice, PutSlice, GetFile, EncodeFile, GetVarint32, FileFits;
    match item
    case Comparator(name) => GetPutSlice(name, rest);
    case CompactPointer(level, key) =>
      GetPutSlice(key, rest);
      GetPutVarint32(level, PutSlice(key) + rest);
      assert EncodeBody(item) + rest == Wire.EncodeVarint(level) + (PutSlice(key) + rest);
    case DeletedFile(level, n) =>
      Wire.VarintRoundTrip(n, rest);
      GetPutVarint32(level, Wire.EncodeVarint(n) + rest);
      assert EncodeBody(item) + rest == Wire.EncodeVarint(level) + (Wire.EncodeVarint(n) + rest);
    case AddedFile(level, f) =>
      GetPutFile(f, rest);
      GetPutVarint32(level, EncodeFile(f) + rest);
      assert EncodeBody(item) + rest == Wire.EncodeVarint(level) + (EncodeFile(f) + rest);
    case Number(_, n) => Wire.VarintRoundTrip(n, rest);
  }

  lemma GetPutItem(item: Item, rest: seq<byte>)
    requires ItemFits(item)
    ensures GetItem(EncodeItem(item) + rest) == Some(Wire.Parsed(item, rest))
  {
    hide Wire.EncodeVarint, GetVarint32, EncodeBody, GetBody, ItemFits;
    GetPutBody(item, rest);
    GetPutVarint32(TagOf(item), EncodeBody(item) + rest);
    assert EncodeItem(item) + rest == Wire.EncodeVarint(TagOf(item)) + (EncodeBody(item) + rest);
  }

  lemma {:induction false} GetPutItems(items: seq<Item>, c: Contents)
    requires forall i :: 0 <= i < |items| ==> ItemFits(items[i])
    ensures DecodeItems(EncodeItems(items), c) == Some(ApplyAll(c, items))
  {
    hide EncodeItem, GetItem, ItemFits, Apply;
    if items != [] {
      var rest := EncodeItems(items[1..]);
      GetPutItem(items[0], rest);
      assert EncodeItem(items[0]) + rest != [] by {
        NotEmpty(items[0]);
      }
      GetPutItems(items[1..], Apply(c, items[0]));
    }
  }

  /** Of the items in one record the last one decides, and lists grow at their end. */
  lemma LastItemDecides(items: seq<Item>, last: Item, c: Contents)
    requires ItemFits(last) && forall i :: 0 <= i < |items| ==> ItemFits(items[i])
    ensures DecodeItems(EncodeItems(items), c).Some? && DecodeItems(EncodeItems(items + [last]), c).Some?
    ensures var before := DecodeItems(EncodeItems(items), c).value;
            var r := DecodeItems(EncodeItems(items + [last]), c).value;
            match last
            case Comparator(name) => r == before.(comparator := Some(name))
            case Number(LogNumber, n) => r == before.(logNumber := Some(n))
            case Number(PrevLogNumber, n) => r == before.(prevLogNumber := Some(n))
            case Number(NextFile, n) => r == before.(nextFile := Some(n))
            case Number(LastSequence, n) => r == before.(lastSequence := Some(n))
            case CompactPointer(level, key) => r == before.(pointers := before.pointers + [(level, key)])
            case DeletedFile(level, n) =>
              && r == before.(deleted := r.deleted)
              && forall p :: p in r.deleted <==> p == (level, n) || p in before.deleted
            case AddedFile(level, f) => r == before.(added := before.added + [(level, f)])
  {
    hide ItemFits, EncodeItems, DecodeItems;
    GetPutItems(items, c);
    GetPutItems(items + [last], c);
    ApplyOne(c, items, last);
  }

  lemma NotEmpty(item: Item)
    ensures EncodeItem(item) != []
  {
    hide EncodeBody, Wire.EncodeVarint;
  }

  lemma {:induction false} ApplyJoin(c: Contents, a: seq<Item>, b: seq<Item>)
    ensures ApplyAll(c, a + b) == ApplyAll(ApplyAll(c, a), b)
    decreases |a|
  {
    hide Apply;
    if a == [] {
      assert a + b == b;
    } else {
      assert (a + b)[1..] == a[1..] + b && (a + b)[0] == a[0];
      ApplyJoin(Apply(c, a[0]), a[1..], b);
    }
  }

  lemma ApplyOne(c: Contents, items: seq<Item>, last: Item)
    ensures ApplyAll(c, items + [last]) == Apply(ApplyAll(c, items), last)
  {
    hide Apply;
    ApplyJoin(c, items, [last]);
    assert [last][1..] == [];
  }

  lemma {:induction false} ApplyPointers(c: Contents, pointers: seq<(nat, seq<byte>)>)
    ensures ApplyAll(c, Pointers(pointers)) == c.(pointers := c.pointers + pointers)
  {
    var n := |pointers|;
    if n == 0 {
      assert c.pointers + pointers == c.pointers;
    } else {
      ApplyPointers(c, pointers[..n - 1]);
      ApplyOne(c, Pointers(pointers[..n - 1]), CompactPointer(pointers[n - 1].0, pointers[n - 1].1));
      assert Pointers(pointers) == Pointers(pointers[..n - 1]) + [CompactPointer(pointers[n - 1].0, pointers[n - 1].1)];
      assert c.pointers + pointers == c.pointers + pointers[..n - 1] + [pointers[n - 1]];
    }
  }

  lemma {:induction false} ApplyDeletions(c: Contents, deleted: seq<(nat, nat)>)
    requires c.deleted == [] && Ascending(deleted)
    ensures ApplyAll(c, Deletions(deleted)) == c.(deleted := deleted)
  {
    var n := |deleted|;
    if n > 0 {
      var front := deleted[..n - 1];
      assert deleted == front + [deleted[n - 1]];
      ApplyDeletions(c, front);
      InsertLast(front, deleted[n - 1]);
      ApplyOne(c, Deletions(front), DeletedFile(deleted[n - 1].0, deleted[n - 1].1));
      assert Deletions(deleted) == Deletions(front) + [DeletedFile(deleted[n - 1].0, deleted[n - 1].1)];
    }
  }

  lemma {:induction false} ApplyAdditions(c: Contents, added: seq<(nat, NewFile)>)
    ensures ApplyAll(c, Additions(added)) == c.(added := c.added + added)
  {
    var n := |added|;
    if n == 0 {
      assert c.added + added == c.added;
    } else {
      ApplyAdditions(c, added[..n - 1]);
      ApplyOne(c, Additions(added[..n - 1]), AddedFile(added[n - 1].0, added[n - 1].1));
      assert Additions(added) == Additions(added[..n - 1]) + [AddedFile(added[n - 1].0, added[n - 1].1)];
      assert c.added + added == c.added + added[..n - 1] + [added[n - 1]];
    }
  }

  lemma ApplyHeader(c: Contents, e: Contents)
    requires c == Cleared(c)
    ensures ApplyAll(c, Header(e)) == e.(pointers := c.pointers, deleted := [], added := [])
  {
    var name := if e.comparator.Some? then [Comparator(e.comparator.value)] else [];
    if e.comparator.Some? {
      ApplyOne(c, [], Comparator(e.comparator.value));
    }
    var c1 := c.(comparator := e.comparator);
    assert ApplyAll(c, name) == c1;
    ApplyCounter(c, name, LogNumber, e.logNumber);
    var a := name + CounterItem(LogNumber, e.logNumber);
    ApplyCounter(c, a, PrevLogNumber, e.prevLogNumber);
    var b := a + CounterItem(PrevLogNumber, e.prevLogNumber);
    ApplyCounter(c, b, NextFile, e.nextFile);
    var d := b + CounterItem(NextFile, e.nextFile);
    ApplyCounter(c, d, LastSequence, e.lastSequence);
  }

  function CounterOf(c: Contents, counter: Counter): Option<nat> {
    match counter
    case LogNumber => c.logNumber
    case PrevLogNumber => c.prevLogNumber
    case NextFile => c.nextFile
    case LastSequence => c.lastSequence
  }

  /** A counter behind items that leave it unset. */
  lemma ApplyCounter(c: Contents, items: seq<Item>, counter: Counter, n: Option<nat>)
    requires CounterOf(ApplyAll(c, items), counter) == None
    ensures ApplyAll(c, items + CounterItem(counter, n)) == SetCounter(ApplyAll(c, items), counter, n)
  {
    if n.Some? {
      ApplyOne(c, items, Number(counter, n.value));
    } else {
      assert items + [] == items;
    }
  }

  predicate EditFits(c: Contents) {
    Ascending(c.deleted) && forall i :: 0 <= i < |ItemsOf(c)| ==> ItemFits(ItemsOf(c)[i])
  }

  /** Decoding an encoded edit gives all of it back; compaction pointers already in the object stay in front. */
  lemma EditRoundTrip(c: Contents, e: Contents)
    requires EditFits(e)
    ensures DecodeItems(EncodeItems(ItemsOf(e)), Cleared(c)) == Some(e.(pointers := c.pointers + e.pointers))
  {
    GetPutItems(ItemsOf(e), Cleared(c));
    ItemsApplied(Cleared(c), e);
  }

  /** Hence decoding into a used object gives the encoded edit back exactly if the object had no compaction pointers. */
  lemma EditRoundTripIff(c: Contents, e: Contents)
    requires EditFits(e)
    ensures DecodeItems(EncodeItems(ItemsOf(e)), Cleared(c)) == Some(e) <==> c.pointers == []
  {
    hide DecodeItems, EncodeItems, ItemsOf, EditFits;
    EditRoundTrip(c, e);
    if c.pointers == [] {
      assert c.pointers + e.pointers == e.pointers;
    } else {
      assert |c.pointers + e.pointers| != |e.pointers|;
    }
  }

  /** An object with one compaction pointer into which the edit without any item is decoded. */
  lemma PointerStays()
    ensures var c := Contents(None, None, None, None, None, [(1, [7])], [], []);
            var e := c.(pointers := []);
            EditFits(e) && EncodeItems(ItemsOf(e)) == [] && DecodeItems([], Cleared(c)) == Some(c)
  {
  }

  lemma ItemsApplied(c: Contents, e: Contents)
    requires c == Cleared(c) && Ascending(e.deleted)
    ensures ApplyAll(c, ItemsOf(e)) == e.(pointers := c.pointers + e.pointers)
  {
    hide ApplyAll, Header, Pointers, Deletions, Additions;
    var c1 := e.(pointers := c.pointers, deleted := [], added := []);
    var c2 := c1.(pointers := c.pointers + e.pointers);
    var c3 := c2.(deleted := e.deleted);
    ApplyHeader(c, e);
    ApplyPointers(c1, e.pointers);
    ApplyDeletions(c2, e.deleted);
    ApplyAdditions(c3, e.added);
    ApplyJoin(c, Header(e), Pointers(e.pointers));
    ApplyJoin(c, Header(e) + Pointers(e.pointers), Deletions(e.deleted));
    ApplyJoin(c, Header(e) + Pointers(e.pointers) + Deletions(e.deleted), Additions(e.added));
    assert [] + e.added == e.added;
  }

  class VersionEdit {
    var comparator: Option<seq<byte>>
    var logNumber: Option<nat>
    var prevLogNumber: Option<nat>
    var nextFile: Option<nat>
    var lastSequence: Option<nat>
    var pointers: seq<(nat, seq<byte>)>
    var deleted: seq<(nat, nat)>
    var added: seq<(nat, NewFile)>

    function State(): Contents
      reads this
    {
      Contents(comparator, logNumber, prevLogNumber, nextFile, lastSequence, pointers, deleted, added)
    }

    constructor ()
      ensures State() == Contents(None, None, None, None, None, [], [], [])
    {
      comparator, logNumber, prevLogNumber, nextFile, lastSequence := None, None, None, None, None;
      pointers, deleted, added := [], [], [];
    }

    method Clear()
      modifies this
      ensures State() == Cleared(old(State()))
    {
      comparator, logNumber, prevLogNumber, nextFile, lastSequence := None, None, None, None, None;
      deleted, added := [], [];
    }

    method EncodeTo(dst: seq<byte>) returns (r: seq<byte>)
      ensures r == dst + EncodeItems(ItemsOf(State()))
    {
      hide EncodeItem, EncodeItems;
      ghost var done: seq<Item> := [];
      assert EncodeItems([]) == [] by {
        NoItems();
      }
      r := dst;
      if comparator.Some? {
        r := Append(dst, r, done, Comparator(comparator.value));
        assert done + [Comparator(comparator.value)] == [Comparator(comparator.value)];
        done := [Comparator(comparator.value)];
      }
      r := AppendCounter(dst, r, done, LogNumber, logNumber);
      r := AppendCounter(dst, r, done + CounterItem(LogNumber, logNumber), PrevLogNumber, prevLogNumber);
      done := done + CounterItem(LogNumber, logNumber) + CounterItem(PrevLogNumber, prevLogNumber);
      r := AppendCounter(dst, r, done, NextFile, nextFile);
      r := AppendCounter(dst, r, done + CounterItem(NextFile, nextFile), LastSequence, lastSequence);
      r := EncodeLists(dst, r);
    }

    /** The lists behind the header. */
    method EncodeLists(ghost dst: seq<byte>, begun: seq<byte>) returns (r: seq<byte>)
      requires begun == dst + EncodeItems(Header(State()))
      ensures r == dst + EncodeItems(ItemsOf(State()))
    {
      hide EncodeItem, EncodeItems, Header;
      ghost var done := Header(State());
      r := begun;
      assert done + Pointers([]) == done;
      for i := 0 to |pointers|
        invariant r == dst + EncodeItems(done + Pointers(pointers[..i]))
      {
        r := Append(dst, r, done + Pointers(pointers[..i]), CompactPointer(pointers[i].0, pointers[i].1));
        assert done + Pointers(pointers[..i + 1])
            == done + Pointers(pointers[..i]) + [CompactPointer(pointers[i].0, pointers[i].1)];
      }
      assert pointers[..|pointers|] == pointers;
      done := done + Pointers(pointers);
      assert done + Deletions([]) == done;
      for i := 0 to |deleted|
        invariant r == dst + EncodeItems(done + Deletions(deleted[..i]))
      {
        r := Append(dst, r, done + Deletions(deleted[..i]), DeletedFile(deleted[i].0, deleted[i].1));
        assert done + Deletions(deleted[..i + 1])
            == done + Deletions(deleted[..i]) + [DeletedFile(deleted[i].0, deleted[i].1)];
      }
      assert deleted[..|deleted|] == deleted;
      done := done + Deletions(deleted);
      assert done + Additions([]) == done;
      for i := 0 to |added|
        invariant r == dst + EncodeItems(done + Additions(added[..i]))
      {
        r := Append(dst, r, done + Additions(added[..i]), AddedFile(added[i].0, added[i].1));
        assert done + Additions(added[..i + 1]) == done + Additions(added[..i]) + [AddedFile(added[i].0, added[i].1)];
      }
      assert added[..|added|] == added;
    }

    /** False if the record is not a sequence of known, complete items; the fields are of use only otherwise. */
    method DecodeFrom(src: seq<byte>) returns (ok: bool)
      modifies this
      ensures var r := DecodeItems(src, Cleared(old(State()))); if r.None? then !ok else ok && State() == r.value
    {
      hide GetBody, GetVarint32, Apply;
      Clear();
      var input := src;
      while true
        invariant DecodeItems(src, Cleared(old(State()))) == DecodeItems(input, State())
        decreases |input|
      {
        var tag := GetVarint32(input);
        if tag.None? {
          break;
        }
        var body := GetBody(tag.value.value, tag.value.rest);
        if body.None? {
          return false;
        }
        Set(body.value.value);
        input := body.value.rest;
      }
      ok := input == [];
    }

    method Set(item: Item)
      modifies this
      ensures State() == Apply(old(State()), item)
    {
      match item
      case Comparator(name) => comparator := Some(name);
      case Number(LogNumber, n) => logNumber := Some(n);
      case Number(PrevLogNumber, n) => prevLogNumber := Some(n);
      case Number(NextFile, n) => nextFile := Some(n);
      case Number(LastSequence, n) => lastSequence := Some(n);
      case CompactPointer(level, key) => pointers := pointers + [(level, key)];
      case DeletedFile(level, n) => deleted := InsertPair(deleted, (level, n));
      case AddedFile(level, f) => added := added + [(level, f)];
    }
  }

  lemma NoItems()
    ensures EncodeItems([]) == []
  {
  }

  method Append(ghost dst: seq<byte>, begun: seq<byte>, ghost done: seq<Item>, item: Item) returns (r: seq<byte>)
    requires begun == dst + EncodeItems(done)
    ensures r == dst + EncodeItems(done + [item])
  {
    hide EncodeItem, EncodeItems;
    r := begun + EncodeItem(item);
    EncodeLast(done, item);
    Regroup(dst, EncodeItems(done), EncodeItem(item));
  }

  lemma EncodeLast(items: seq<Item>, last: Item)
    ensures EncodeItems(items + [last]) == EncodeItems(items) + EncodeItem(last)
  {
    hide EncodeItem;
    EncodeJoin(items, [last]);
    assert [last][1..] == [] && EncodeItems([last]) == EncodeItem(last) + EncodeItems([]);
  }

  method AppendCounter(ghost dst: seq<byte>, begun: seq<byte>, ghost done: seq<Item>, counter: Counter, n: Option<nat>)
    returns (r: seq<byte>)
    requires begun == dst + EncodeItems(done)
    ensures r == dst + EncodeItems(done + CounterItem(counter, n))
  {
    r := begun;
    if n.Some? {
      r := Append(dst, r, done, Number(counter, n.value));
    } else {
      assert done + [] == done;
    }
  }
}
