/** Write batches as bytes: how the log keeps them and how they reach a memtable. */
module WriteBatches {
  import opened Basics
  import opened Coding
  import Wire

  datatype Op = Put(key: seq<byte>, value: seq<byte>) | Delete(key: seq<byte>)

  /** An operation under the sequence number it is inserted with. */
  datatype Stamped = Stamped(sequence: nat, op: Op)

  const HEADER: nat := 12
  const TYPE_DELETION: byte := 0
  const TYPE_VALUE: byte := 1

  function EncodeOp(op: Op): seq<byte> {
    match op
    case Put(key, value) => [TYPE_VALUE] + (PutSlice(key) + PutSlice(value))
    case Delete(key) => [TYPE_DELETION] + PutSlice(key)
  }

  function EncodeOps(ops: seq<Op>): seq<byte> {
    if ops == [] then [] else EncodeOp(ops[0]) + EncodeOps(ops[1..])
  }

  lemma {:induction false} EncodeJoin(a: seq<Op>, b: seq<Op>)
    ensures EncodeOps(a + b) == EncodeOps(a) + EncodeOps(b)
  {
    if a == [] {
      assert a + b == b;
    } else {
      hide EncodeOp;
      assert (a + b)[1..] == a[1..] + b && (a + b)[0] == a[0];
      EncodeJoin(a[1..], b);
      assert EncodeOp(a[0]) + (EncodeOps(a[1..]) + EncodeOps(b)) == EncodeOp(a[0]) + EncodeOps(a[1..]) + EncodeOps(b);
    }
  }

  lemma EncodeOne(op: Op)
    ensures EncodeOps([op]) == EncodeOp(op)
  {
    hide EncodeOp;
    assert [op][1..] == [] && EncodeOp(op) + [] == EncodeOp(op);
  }

  predicate OpFits(op: Op) {
    |op.key| < TWO32 && (op.Put? ==> |op.value| < TWO32)
  }

  /** The operation at the front; a tag of neither kind or a string cut short is corruption. */
  function GetOp(s: seq<byte>): (r: Option<Wire.Parsed<Op>>)
    requires s != []
    ensures r.Some? ==> |r.value.rest| < |s|
  {
    if s[0] != TYPE_VALUE && s[0] != TYPE_DELETION then None
    else
      var key := GetSlice(s[1..]);
      if key.None? then None
      else if s[0] == TYPE_DELETION then Some(Wire.Parsed(Delete(key.value.value), key.value.rest))
      else
        var value := GetSlice(key.value.rest);
        if value.None? then None
        else Some(Wire.Parsed(Put(key.value.value, value.value.value), value.value.rest))
  }

  /** The operations up to the end or to the first corruption, and whether the end was reached. */
  function ParseOps(s: seq<byte>): (seq<Op>, bool)
    decreases |s|
  {
    if s == [] then ([], true)
    else
      var op := GetOp(s);
      if op.None? then ([], false)
      else
        var r := ParseOps(op.value.rest);
        ([op.value.value] + r.0, r.1)
  }

  lemma GetPutOp(op: Op, rest: seq<byte>)
    requires OpFits(op)
    ensures GetOp(EncodeOp(op) + rest) == Some(Wire.Parsed(op, rest))
  {
    hide GetSlice, PutSlice;
    var s := EncodeOp(op) + rest;
    if op.Put? {
      GetPutSlice(op.value, rest);
      GetPutSlice(op.key, PutSlice(op.value) + rest);
      Regroup([TYPE_VALUE], PutSlice(op.key) + PutSlice(op.value), rest);
      Regroup(PutSlice(op.key), PutSlice(op.value), rest);
      Behind(TYPE_VALUE, PutSlice(op.key) + (PutSlice(op.value) + rest));
    } else {
      GetPutSlice(op.key, rest);
      Regroup([TYPE_DELETION], PutSlice(op.key), rest);
      Behind(TYPE_DELETION, PutSlice(op.key) + rest);
    }
  }

  lemma Behind(b: byte, rest: seq<byte>)
    ensures ([b] + rest)[0] == b && ([b] + rest)[1..] == rest
  {
  }

  lemma {:induction false} ParseEncodeOps(ops: seq<Op>)
    requires forall i :: 0 <= i < |ops| ==> OpFits(ops[i])
    ensures ParseOps(EncodeOps(ops)) == (ops, true)
  {
    if ops != [] {
      hide EncodeOp, GetOp, OpFits;
      var rest := EncodeOps(ops[1..]);
      GetPutOp(ops[0], rest);
      OpNotEmpty(ops[0]);
      ParseEncodeOps(ops[1..]);
      assert [ops[0]] + ops[1..] == ops;
    }
  }

  lemma OpNotEmpty(op: Op)
    ensures EncodeOp(op) != []
  {
  }

  /** The bytes of an operation: 1 for a value and 0 for a deletion, then each string behind its length. */
  lemma OpBytesAre(op: Op)
    requires OpFits(op)
    ensures op.Put? ==>
              EncodeOp(op) == [1] + (Wire.EncodeVarint(|op.key|) + op.key + (Wire.EncodeVarint(|op.value|) + op.value))
    ensures op.Delete? ==> EncodeOp(op) == [0] + (Wire.EncodeVarint(|op.key|) + op.key)
  {
    hide Wire.EncodeVarint;
  }

  /** Any other first byte is no operation. */
  lemma OtherTagsRefused(s: seq<byte>)
    requires s != [] && s[0] > 1
    ensures GetOp(s) == None && ParseOps(s) == ([], false)
  {
  }

  // ---- the header ----

  /** The count field as the C++ int it is read into. */
  function CountOf(rep: seq<byte>): int
    requires |rep| >= HEADER
  {
    var w := WordAt(rep, 8);
    if w < 0x8000_0000 then w else w - TWO32
  }

  function SequenceOf(rep: seq<byte>): nat
    requires |rep| >= HEADER
  {
    Wire.FromLittleEndian(rep[..8])
  }

  /** A batch as a value, with the sequence number of its first operation. */
  datatype Batch = Batch(first: nat, ops: seq<Op>)

  predicate BatchFits(b: Batch) {
    b.first + |b.ops| < TWO64 && |b.ops| < 0x8000_0000 && forall i :: 0 <= i < |b.ops| ==> OpFits(b.ops[i])
  }

  function ContentsOf(b: Batch): (r: seq<byte>)
    ensures |r| >= HEADER
  {
    Wire.LittleEndian(b.first, 8) + Fixed32(|b.ops| % TWO32) + EncodeOps(b.ops)
  }

  lemma HeaderBack(b: Batch)
    requires b.first < TWO64 && |b.ops| < 0x8000_0000
    ensures var rep := ContentsOf(b);
            SequenceOf(rep) == b.first && CountOf(rep) == |b.ops| && rep[HEADER..] == EncodeOps(b.ops)
  {
    hide Wire.LittleEndian, Wire.FromLittleEndian, EncodeOps, Fixed32, Wire.Pow2, WordAt;
    Wire.Pow2Is();
    Wire.LittleEndianRoundTrip(b.first, 8);
    var front, count := Wire.LittleEndian(b.first, 8), Fixed32(|b.ops|);
    FixedBack(|b.ops|, EncodeOps(b.ops));
    WordSkips(front, count + EncodeOps(b.ops), 0);
    assert ContentsOf(b) == front + (count + EncodeOps(b.ops));
    assert ContentsOf(b)[..8] == front;
  }

  /** Consecutive sequence numbers, in the 64 bits of the counter. */
  function Stamp(ops: seq<Op>, first: nat): (r: seq<Stamped>)
    ensures |r| == |ops|
  {
    seq(|ops|, i requires 0 <= i < |ops| => Stamped((first + i) % TWO64, ops[i]))
  }

  class WriteBatch {
    var rep: seq<byte>

    predicate Valid()
      reads this
    {
      |rep| >= HEADER
    }

    /** What the batch holds, if it was filled by Put, Delete and Append only. */
    ghost predicate Is(b: Batch)
      reads this
    {
      rep == ContentsOf(b) && BatchFits(b)
    }

    constructor ()
      ensures Valid() && Is(Batch(0, []))
    {
      rep := seq(HEADER, _ => 0);
      new;
      assert Wire.LittleEndian(0, 8) == seq(8, _ => 0) by {
        Zeros(8);
      }
    }

    method SetContents(contents: seq<byte>)
      requires |contents| >= HEADER
      modifies this
      ensures Valid() && rep == contents
    {
      rep := contents;
    }

    method SetSequence(sequence: nat)
      requires Valid() && sequence < TWO64
      modifies this
      ensures Valid()
      ensures forall b :: old(rep) == ContentsOf(b) ==> rep == ContentsOf(b.(first := sequence))
    {
      hide EncodeOps;
      rep := Wire.LittleEndian(sequence, 8) + rep[8..];
      forall b | old(rep) == ContentsOf(b)
        ensures rep == ContentsOf(b.(first := sequence))
      {
        assert old(rep)[8..] == Fixed32(|b.ops| % TWO32) + EncodeOps(b.ops);
      }
    }

    method SetCount(n: nat, ghost first: nat, ghost count: nat, ghost data: seq<byte>)
      requires Valid() && Made(rep, first, count, data)
      modifies this
      ensures Made(rep, first, n, data)
    {
      Parts(rep, first, count, data);
      rep := rep[..8] + Fixed32(n % TWO32) + rep[HEADER..];
    }

    /** One more operation behind the others. */
    method Put(key: seq<byte>, value: seq<byte>, ghost b: Batch)
      requires Valid() && Is(b) && BatchFits(b.(ops := b.ops + [Op.Put(key, value)]))
      modifies this
      ensures Valid() && Is(b.(ops := b.ops + [Op.Put(key, value)]))
    {
      hide EncodeOps, EncodeOp, ContentsOf, PutSlice, Made;
      ghost var data := EncodeOps(b.ops);
      HeaderBack(b);
      ContentsMade(b);
      SetCount(CountOf(rep) + 1, b.first, |b.ops|, data);
      rep := Longer(rep, [TYPE_VALUE], b.first, |b.ops| + 1, data);
      rep := Longer(rep, PutSlice(key), b.first, |b.ops| + 1, data + [TYPE_VALUE]);
      rep := Longer(rep, PutSlice(value), b.first, |b.ops| + 1, data + [TYPE_VALUE] + PutSlice(key));
      PutBytes(data, key, value);
      EncodeLast(b.ops, Op.Put(key, value));
      MadeIsContents(rep, b.(ops := b.ops + [Op.Put(key, value)]));
    }

    method Delete(key: seq<byte>, ghost b: Batch)
      requires Valid() && Is(b) && BatchFits(b.(ops := b.ops + [Op.Delete(key)]))
      modifies this
      ensures Valid() && Is(b.(ops := b.ops + [Op.Delete(key)]))
    {
      hide EncodeOps, ContentsOf, PutSlice, Made;
      ghost var data := EncodeOps(b.ops);
      HeaderBack(b);
      ContentsMade(b);
      SetCount(CountOf(rep) + 1, b.first, |b.ops|, data);
      rep := Longer(rep, [TYPE_DELETION], b.first, |b.ops| + 1, data);
      rep := Longer(rep, PutSlice(key), b.first, |b.ops| + 1, data + [TYPE_DELETION]);
      assert data + [TYPE_DELETION] + PutSlice(key) == data + EncodeOp(Op.Delete(key));
      EncodeLast(b.ops, Op.Delete(key));
      MadeIsContents(rep, b.(ops := b.ops + [Op.Delete(key)]));
    }

    /** The operations of another batch behind those of this one, which keeps its sequence number. */
    method Append(source: WriteBatch, ghost b: Batch, ghost c: Batch)
      requires Valid() && Is(b) && source.Valid() && source.Is(c) && BatchFits(b.(ops := b.ops + c.ops))
      modifies this
      ensures Valid() && Is(b.(ops := b.ops + c.ops))
    {
      hide EncodeOps, ContentsOf, Made;
      HeaderBack(b);
      HeaderBack(c);
      ContentsMade(b);
      var more := source.rep[HEADER..];
      SetCount(CountOf(rep) + CountOf(source.rep), b.first, |b.ops|, EncodeOps(b.ops));
      rep := Longer(rep, more, b.first, |b.ops| + |c.ops|, EncodeOps(b.ops));
      EncodeJoin(b.ops, c.ops);
      MadeIsContents(rep, b.(ops := b.ops + c.ops));
    }

    /** Hands the operations over in order until the end or the first corruption, and then checks their number. */
    method Iterate() returns (ok: bool, delivered: seq<Op>)
      ensures if |rep| < HEADER then !ok && delivered == []
              else var p := ParseOps(rep[HEADER..]); delivered == p.0 && (ok <==> p.1 && |p.0| == CountOf(rep))
      ensures ok ==> |delivered| == WordAt(rep, 8) < 0x8000_0000
    {
      hide GetOp;
      delivered := [];
      if |rep| < HEADER {
        return false, delivered;
      }
      var input := rep[HEADER..];
      assert [] + ParseOps(input).0 == ParseOps(input).0;
      while input != []
        invariant var p, q := ParseOps(rep[HEADER..]), ParseOps(input); p == (delivered + q.0, q.1)
        decreases |input|
      {
        ghost var q := ParseOps(input);
        var op := GetOp(input);
        if op.None? {
          return false, delivered;
        }
        assert delivered + q.0 == delivered + [op.value.value] + ParseOps(op.value.rest).0;
        delivered := delivered + [op.value.value];
        input := op.value.rest;
      }
      ok := |delivered| == CountOf(rep);
    }

    /** InsertInto: the operations delivered go into the memtable under consecutive sequence numbers. */
    method InsertInto(mem: seq<Stamped>) returns (ok: bool, mem': seq<Stamped>)
      requires Valid()
      ensures var p := ParseOps(rep[HEADER..]);
              mem' == mem + Stamp(p.0, SequenceOf(rep)) && (ok <==> p.1 && |p.0| == CountOf(rep))
      ensures forall b :: Is(b) ==> ok && mem' == mem + Stamp(b.ops, b.first)
    {
      hide ParseOps, EncodeOps, ContentsOf, Wire.FromLittleEndian, WordAt;
      var delivered;
      ok, delivered := Iterate();
      mem' := mem + Stamp(delivered, SequenceOf(rep));
      forall b | Is(b)
        ensures ok && mem' == mem + Stamp(b.ops, b.first)
      {
        HeaderBack(b);
        ParseEncodeOps(b.ops);
      }
    }
  }

  lemma {:induction false} Zeros(n: nat)
    ensures Wire.LittleEndian(0, n) == seq(n, _ => 0)
  {
    if n > 0 {
      Zeros(n - 1);
    }
  }

  /** A header and data behind it. */
  predicate Made(rep: seq<byte>, first: nat, count: nat, data: seq<byte>) {
    rep == Wire.LittleEndian(first, 8) + Fixed32(count % TWO32) + data
  }

  lemma Parts(rep: seq<byte>, first: nat, count: nat, data: seq<byte>)
    requires Made(rep, first, count, data)
    ensures |rep| >= HEADER && rep[..8] == Wire.LittleEndian(first, 8) && rep[HEADER..] == data
  {
  }

  method Longer(rep: seq<byte>, more: seq<byte>, ghost first: nat, ghost count: nat, ghost data: seq<byte>)
    returns (r: seq<byte>)
    requires Made(rep, first, count, data)
    ensures Made(r, first, count, data + more)
  {
    r := rep + more;
    Regroup(Wire.LittleEndian(first, 8) + Fixed32(count % TWO32), data, more);
  }

  lemma PutBytes(data: seq<byte>, key: seq<byte>, value: seq<byte>)
    ensures data + [TYPE_VALUE] + PutSlice(key) + PutSlice(value) == data + EncodeOp(Put(key, value))
  {
    hide PutSlice;
    Regroup(data, [TYPE_VALUE], PutSlice(key));
    Regroup(data, [TYPE_VALUE] + PutSlice(key), PutSlice(value));
    Regroup([TYPE_VALUE], PutSlice(key), PutSlice(value));
  }

  lemma ContentsMade(b: Batch)
    ensures Made(ContentsOf(b), b.first, |b.ops|, EncodeOps(b.ops))
  {
  }

  lemma MadeIsContents(rep: seq<byte>, b: Batch)
    requires Made(rep, b.first, |b.ops|, EncodeOps(b.ops))
    ensures rep == ContentsOf(b)
  {
  }

  lemma EncodeLast(ops: seq<Op>, last: Op)
    ensures EncodeOps(ops + [last]) == EncodeOps(ops) + EncodeOp(last)
  {
    hide EncodeOp, EncodeOps;
    EncodeJoin(ops, [last]);
    EncodeOne(last);
  }
}
