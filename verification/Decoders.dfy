/** pb_decode as it runs: an input stream, a wrap-around field iterator, and loops that fill a struct in place. */
module Decoders {
  import opened Basics
  import opened Wire
  import opened Messages
  import opened Parsing
  import opened Shapes
  import Encoders

  /** pb_istream_t: the bytes within bytes_left. */
  class IStream {
    var left: seq<byte>

    constructor (left: seq<byte>)
      ensures this.left == left
    {
      this.left := left;
    }

    method ReadByte() returns (ok: bool, b: byte)
      modifies this
      ensures ok <==> old(left) != []
      ensures ok ==> b == old(left)[0] && left == old(left)[1..]
      ensures !ok ==> left == old(left)
    {
      if |left| == 0 {
        return false, 0;
      }
      ok, b, left := true, left[0], left[1..];
    }

    method Read(n: nat) returns (ok: bool, b: seq<byte>)
      modifies this
      ensures Agrees(Take(old(left), n), ok, b, left)
    {
      if |left| < n {
        return false, [];
      }
      ok, b, left := true, left[..n], left[n..];
    }
  }

  /** The run ended as the function says; after a failure the position is of no use. */
  predicate Agrees<T(==)>(parsed: Option<Parsed<T>>, ok: bool, value: T, left: seq<byte>) {
    if parsed.None? then !ok else ok && value == parsed.value.value && left == parsed.value.rest
  }

  // ---- varints and tags ----

  method GetVarint(stream: IStream) returns (ok: bool, v: nat)
    modifies stream
    ensures Agrees(DecodeVarint(old(stream.left)), ok, v, stream.left)
  {
    hide Shl;
    var bitpos, more := 0, true;
    v := 0;
    while more
      invariant v < TWO64
      invariant DecodeVarint(old(stream.left))
                == if more then DecodeVarintFrom(stream.left, bitpos, v) else Some(Parsed(v, stream.left))
      decreases more, |stream.left|
    {
      if bitpos >= 64 {
        return false, 0;
      }
      var got, b := stream.ReadByte();
      if !got {
        return false, 0;
      }
      v := (v + Shl(b % 128, bitpos)) % TWO64;
      bitpos := bitpos + 7;
      more := b >= 128;
    }
    ok := true;
  }

  /** The last byte of a five-byte varint has bits past the 32nd. */
  predicate Overfull(bitpos: nat, b: byte) {
    bitpos == 35 && b / 16 % 8 != 0
  }

  method GetVarint32(stream: IStream) returns (ok: bool, v: nat)
    modifies stream
    ensures Agrees(DecodeVarint32(old(stream.left)), ok, v, stream.left)
  {
    hide Shl;
    var got, b := stream.ReadByte();
    if !got {
      return false, 0;
    }
    if b < 128 {
      return true, b;
    }
    var bitpos, more := 7, true;
    v := b % 128;
    while more
      invariant v < TWO32
      invariant more ==> DecodeVarint32(old(stream.left)) == DecodeVarint32From(stream.left, bitpos, v)
      invariant !more ==>
                  DecodeVarint32(old(stream.left)) == if Overfull(bitpos, b) then None else Some(Parsed(v, stream.left))
      decreases more, |stream.left|
    {
      got, b := stream.ReadByte();
      if !got {
        return false, 0;
      }
      if bitpos >= 32 {
        var signExtension := if bitpos < 63 then 0xFF else 0x01;
        if b % 128 != 0 && (v < 0x8000_0000 || b != signExtension) {
          return false, 0;
        }
      } else {
        v := (v + Shl(b % 128, bitpos)) % TWO32;
      }
      bitpos := bitpos + 7;
      more := b >= 128;
    }
    if Overfull(bitpos, b) {
      return false, 0;
    }
    ok := true;
  }

  method GetTag(stream: IStream) returns (t: TagRead)
    modifies stream
    ensures t == DecodeTag(old(stream.left)) && (t.Tag? ==> stream.left == t.rest)
  {
    if stream.left == [] {
      return EndOfMessage([]);
    }
    var ok, v := GetVarint32(stream);
    if !ok {
      return BadTag;
    }
    if v == 0 {
      return EndOfMessage(stream.left);
    }
    t := Tag(v / 8, v % 8, stream.left);
  }

  // ---- skipping ----

  predicate Skipped(parsed: Option<seq<byte>>, ok: bool, left: seq<byte>) {
    if parsed.None? then !ok else ok && left == parsed.value
  }

  method PassVarint(stream: IStream) returns (ok: bool)
    modifies stream
    ensures Skipped(SkipVarint(old(stream.left)), ok, stream.left)
  {
    var more := true;
    while more
      invariant SkipVarint(old(stream.left)) == if more then SkipVarint(stream.left) else Some(stream.left)
      decreases more, |stream.left|
    {
      var got, b := stream.ReadByte();
      if !got {
        return false;
      }
      more := b >= 128;
    }
    ok := true;
  }

  /** pb_make_string_substream and, as the parent moves past it at once, pb_close_string_substream. */
  method GetPrefixed(stream: IStream) returns (ok: bool, b: seq<byte>)
    modifies stream
    ensures Agrees(DecodePrefixed(old(stream.left)), ok, b, stream.left)
  {
    var got, n := GetVarint32(stream);
    if !got {
      return false, [];
    }
    ok, b := stream.Read(n);
  }

  method PassField(stream: IStream, wireType: nat) returns (ok: bool)
    modifies stream
    ensures Skipped(SkipField(wireType, old(stream.left)), ok, stream.left)
  {
    var b: seq<byte>;
    if wireType == WT_VARINT {
      ok := PassVarint(stream);
    } else if wireType == WT_64BIT {
      ok, b := stream.Read(8);
    } else if wireType == WT_STRING {
      ok, b := GetPrefixed(stream);
    } else if wireType == WT_32BIT {
      ok, b := stream.Read(4);
    } else {
      ok := false;
    }
  }

  // ---- values ----

  method GetNumber(stream: IStream, lt: LType) returns (ok: bool, v: Value)
    requires Packable(lt)
    modifies stream
    ensures Agrees(DecodeNumber(lt, old(stream.left)), ok, v, stream.left)
  {
    hide DecodeVarint, DecodeVarint32, Signed, Unsigned, FromLittleEndian;
    var n: nat;
    if lt.Boolean? {
      ok, n := GetVarint32(stream);
      v := Number(if n != 0 then 1 else 0);
    } else if lt.Fixed32? || lt.Fixed64? {
      var b: seq<byte>;
      ok, b := stream.Read(if lt.Fixed32? then 4 else 8);
      v := Number(FromLittleEndian(b));
    } else {
      ok, n := GetVarint(stream);
      if !ok {
        return false, Number(0);
      }
      var wide: int := if lt.Varint? then Signed(n, if lt.width == 8 then 8 else 4)
                       else if lt.SVarint? then UnZigZag(n)
                       else n;
      var clamped: int := if lt.UVarint? then Unsigned(wide, lt.width) else Signed(wide, lt.width);
      ok := clamped == wide;
      v := Number(wide);
    }
  }

  method GetOctets(stream: IStream, lt: LType) returns (ok: bool, v: Value)
    requires lt.Bytes? || lt.String? || lt.FixedBytes?
    modifies stream
    ensures Agrees(DecodeOctets(lt, old(stream.left)), ok, v, stream.left)
  {
    hide DecodeVarint32;
    v := Octets([]);
    var got, n := GetVarint32(stream);
    if !got {
      return false, v;
    }
    if lt.FixedBytes? && n == 0 {
      return true, DefaultValue(lt);
    }
    if (lt.Bytes? && n > lt.capacity) || (lt.String? && n + 1 > lt.capacity) || (lt.FixedBytes? && n != lt.size) {
      return false, v;
    }
    var b: seq<byte>;
    ok, b := stream.Read(n);
    v := Octets(if lt.String? then UpToZero(b) else b);
  }

  // ---- the field iterator ----

  /** pb_field_iter_t. */
  class FieldIter {
    const fields: seq<Field>
    var pos: nat
    var required: nat

    predicate Valid()
      reads this
    {
      && (pos < |fields| || (fields == [] && pos == 0))
      && required == RequiredBefore(fields, pos)
    }

    constructor (fields: seq<Field>)
      ensures Valid() && this.fields == fields && pos == 0
    {
      this.fields := fields;
      pos, required := 0, 0;
    }

    /** pb_field_iter_next: false when it wraps around. */
    method Next() returns (more: bool)
      requires Valid()
      modifies this`pos, this`required
      ensures Valid() && pos == (if old(pos) + 1 < |fields| then old(pos) + 1 else 0) && (more <==> pos != 0)
    {
      if fields == [] {
        return false;
      }
      if pos + 1 == |fields| {
        pos, required := 0, 0;
        return false;
      }
      if fields[pos].htype.Required? {
        required := required + 1;
      }
      pos := pos + 1;
      more := true;
    }

    /** The tag where it stands; the terminator of an empty descriptor has tag 0. */
    function TagHere(): nat
      requires Valid()
      reads this
    {
      if fields == [] then 0 else fields[pos].tag
    }

    /** pb_field_iter_find: searches on from where it stands, around the end and back. */
    method Find(tag: nat) returns (found: bool)
      requires Valid() && WellFormed(fields)
      modifies this`pos, this`required
      ensures Valid() && (found <==> Has(fields, tag) || AtTerminator(fields, tag))
      ensures if Has(fields, tag) then pos == IndexOf(fields, tag) else pos == old(pos)
    {
      var start := pos;
      ghost var wrapped := false;
      while true
        invariant Valid() && (wrapped ==> pos < start) && (!wrapped ==> start <= pos)
        invariant forall j :: start <= j < |fields| && (wrapped || j < pos) ==> fields[j].tag != tag
        invariant wrapped ==> forall j :: 0 <= j < pos ==> fields[j].tag != tag
        decreases if wrapped then start - pos else |fields| + start - pos
      {
        if TagHere() == tag {
          if fields != [] {
            IndexIsUnique(fields, pos);
          }
          return true;
        }
        var more := Next();
        wrapped := wrapped || !more;
        if pos == start {
          break;
        }
      }
      found := false;
    }

    /** Runs to the end of the descriptor to learn how many fields are required. */
    method CountRequired() returns (count: nat)
      requires Valid()
      modifies this`pos, this`required
      ensures count == RequiredBefore(fields, |fields|)
    {
      if fields == [] {
        return 0;
      }
      var more, last := true, fields[pos].htype;
      count := required;
      while more
        invariant Valid() && (more ==> count <= required)
        invariant !more ==> count == RequiredBefore(fields, |fields| - 1) && last == fields[|fields| - 1].htype
        decreases more, |fields| - pos
      {
        count, last := required, fields[pos].htype;
        more := Next();
      }
      if last.Required? {
        count := count + 1;
      }
    }
  }

  // ---- fields and messages ----

  /** The decoder of one value of each type, into a place that holds prior. */
  method GetValue(stream: IStream, lt: LType, initialise: bool, prior: Value) returns (ok: bool, v: Value)
    requires WellTyped(lt)
    modifies stream
    ensures Agrees(DecodeValue(lt, initialise, prior, old(stream.left)), ok, v, stream.left)
    decreases lt, 0
  {
    hide DecodeNumber, DecodeOctets, DecodePrefixed, DecodeFields;
    if Packable(lt) {
      ok, v := GetNumber(stream, lt);
    } else if !lt.Message? {
      ok, v := GetOctets(stream, lt);
    } else {
      v := prior;
      var got, b := GetPrefixed(stream);
      if !got {
        return false, v;
      }
      var sub := new IStream(b);
      var m;
      ok, m := GetFields(sub, lt.fields, Start(lt.fields, initialise, prior));
      v := Struct(m);
    }
  }

  method GetPackedItems(sub: IStream, lt: LType, max: nat, slot: seq<Value>) returns (ok: bool, filled: seq<Value>)
    requires Packable(lt)
    modifies sub
    ensures var r := DecodePacked(lt, max, slot, old(sub.left)); if r.None? then !ok else ok && filled == r.value
  {
    hide DecodeNumber;
    filled := slot;
    while |sub.left| > 0 && |filled| < max
      invariant DecodePacked(lt, max, slot, old(sub.left)) == DecodePacked(lt, max, filled, sub.left)
      decreases |sub.left|
    {
      var got, v := GetNumber(sub, lt);
      if !got {
        return false, filled;
      }
      filled := filled + [v];
    }
    ok := sub.left == [];
  }

  /** decode_static_field. */
  method GetField(stream: IStream, fields: seq<Field>, i: nat, m: seq<seq<Value>>, wireType: nat)
    returns (ok: bool, r: seq<seq<Value>>)
    requires i < |fields| == |m| && WellTyped(fields[i].ltype)
    modifies stream
    ensures |r| == |m| && Agrees(DecodeField(fields, i, m, wireType, old(stream.left)), ok, r, stream.left)
    ensures ok ==> forall j :: 0 <= j < |m| && j != i ==>
              r[j] == if fields[i].htype.Oneof? && fields[j].htype == fields[i].htype then [] else m[j]
    decreases fields[i], 1
  {
    hide DecodePrefixed, DecodePacked, DecodeValue, ClearUnion, WellTyped;
    r := m;
    var f := fields[i];
    var v;
    if !IsArray(f.htype) {
      ok, v := GetValue(stream, f.ltype, false, OldValue(f, m[i]));
      r := ClearUnion(fields, i, m)[i := [v]];
      Apart(fields, i, m);
    } else if wireType == WT_STRING && Packable(f.ltype) {
      var got, b := GetPrefixed(stream);
      if !got {
        return false, m;
      }
      var sub := new IStream(b);
      var slot;
      ok, slot := GetPackedItems(sub, f.ltype, f.htype.max, m[i]);
      r := m[i := slot];
    } else if |m[i]| >= f.htype.max {
      ok := false;
    } else {
      ok, v := GetValue(stream, f.ltype, true, DefaultValue(f.ltype));
      r := m[i := m[i] + [v]];
    }
  }

  lemma Apart(fields: seq<Field>, i: nat, m: seq<seq<Value>>)
    requires i < |fields| == |m|
    ensures forall j :: 0 <= j < |m| && j != i ==>
              ClearUnion(fields, i, m)[j] ==
              if fields[i].htype.Oneof? && fields[j].htype == fields[i].htype then [] else m[j]
  {
  }

  /** The required fields whose bit is set. */
  function SeenSet(bits: seq<bool>): set<nat> {
    set k: nat | k < |bits| && bits[k]
  }

  /** The terminator's type is that of a required boolean field: its bit is set, and a varint is read. */
  method TakeAtTerminator(stream: IStream, seen: array<bool>) returns (ok: bool)
    requires seen.Length == MAX_REQUIRED
    modifies stream, seen
    ensures SeenSet(seen[..]) == old(SeenSet(seen[..])) + {0}
    ensures Skipped(PassUnknown([], 0, WT_VARINT, old(stream.left)), ok, stream.left)
  {
    hide DecodeVarint32;
    seen[0] := true;
    var flag;
    ok, flag := GetVarint32(stream);
  }

  /** The loop of pb_decode_noinit. */
  method ReadRecords(stream: IStream, fields: seq<Field>, start: seq<seq<Value>>, iter: FieldIter, seen: array<bool>)
    returns (ok: bool, m: seq<seq<Value>>, partial: Option<nat>)
    requires |start| == |fields| && WellFormed(fields) && iter.fields == fields && iter.Valid()
    requires seen.Length == MAX_REQUIRED && SeenSet(seen[..]) == {}
    modifies stream, iter`pos, iter`required, seen
    ensures |m| == |fields| && iter.Valid()
    ensures var r := DecodeLoop(fields, Progress(start, {}, None), old(stream.left));
            if r.None? then !ok else ok && r.value == Progress(m, SeenSet(seen[..]), partial)
    decreases fields, 2
  {
    hide DecodeLoop, DecodeTag, DecodeField, WellFormed, Has, IndexOf, SkipField, RequiredBefore, EnterField, SeenSet;
    m, partial := start, None;
    ghost var s0, st0 := stream.left, Progress(start, {}, None);
    while stream.left != []
      invariant ProgressOk(fields, Progress(m, SeenSet(seen[..]), partial)) && iter.Valid()
      invariant DecodeLoop(fields, st0, s0) == DecodeLoop(fields, Progress(m, SeenSet(seen[..]), partial), stream.left)
      decreases |stream.left|
    {
      ghost var st, s := Progress(m, SeenSet(seen[..]), partial), stream.left;
      LoopStep(fields, st, s);
      var t := GetTag(stream);
      if t.BadTag? {
        return false, m, partial;
      }
      if t.EndOfMessage? {
        return true, m, partial;
      }
      var found := iter.Find(t.tag);
      if !found {
        ok := PassField(stream, t.wireType);
        if !ok {
          return;
        }
        continue;
      }
      if fields == [] {
        ok := TakeAtTerminator(stream, seen);
        if !ok {
          return;
        }
        continue;
      }
      var i := iter.pos;
      LoopEnter(fields, st, s, i);
      ok, m, partial := Enter(fields, i, iter.required, seen, m, partial);
      if !ok {
        return;
      }
      TagOk(fields, i);
      ok, m := GetField(stream, fields, i, m, t.wireType);
      if !ok {
        return;
      }
    }
    LoopEnd(fields, Progress(m, SeenSet(seen[..]), partial));
    ok := true;
  }

  /** pb_decode_noinit. */
  method GetFields(stream: IStream, fields: seq<Field>, start: seq<seq<Value>>) returns (ok: bool, m: seq<seq<Value>>)
    requires |start| == |fields| && WellFormed(fields)
    modifies stream
    ensures |m| == |fields|
    ensures var r := DecodeFields(fields, start, old(stream.left)); if r.None? then !ok else ok && m == r.value
    decreases fields, 3
  {
    hide DecodeLoop, WellFormed, AllRequiredSeen, RequiredBefore;
    var iter := new FieldIter(fields);
    var seen := new bool[MAX_REQUIRED](_ => false);
    assert SeenSet(seen[..]) == {};
    var partial;
    ok, m, partial := ReadRecords(stream, fields, start, iter, seen);
    if !ok {
      return;
    }
    ok := partial.None? || |m[partial.value]| == fields[partial.value].htype.max;
    if ok {
      var count := iter.CountRequired();
      ok := CheckRequired(fields, seen, count);
    }
  }

  /** The unfolding of the loop on a nonempty input, outcome by outcome. */
  lemma LoopStep(fields: seq<Field>, st: Progress, s: seq<byte>)
    requires ProgressOk(fields, st) && s != []
    ensures DecodeTag(s).BadTag? ==> DecodeLoop(fields, st, s) == None
    ensures DecodeTag(s).EndOfMessage? ==> DecodeLoop(fields, st, s) == Some(st)
    ensures DecodeTag(s).Tag? && !Has(fields, DecodeTag(s).tag) ==>
              (var more := PassUnknown(fields, DecodeTag(s).tag, DecodeTag(s).wireType, DecodeTag(s).rest);
               && (more.None? ==> DecodeLoop(fields, st, s) == None)
               && (more.Some? ==>
                     DecodeLoop(fields, st, s)
                       == DecodeLoop(fields, PassedOver(fields, DecodeTag(s).tag, st), more.value)))
  {
  }

  lemma LoopEnter(fields: seq<Field>, st: Progress, s: seq<byte>, i: nat)
    requires ProgressOk(fields, st) && s != [] && DecodeTag(s).Tag? && Has(fields, DecodeTag(s).tag)
    requires i == IndexOf(fields, DecodeTag(s).tag)
    ensures EnterField(fields, i, st).None? ==> DecodeLoop(fields, st, s) == None
    ensures EnterField(fields, i, st).Some? ==>
              (var entered := EnterField(fields, i, st).value;
               var p := DecodeField(fields, i, entered.m, DecodeTag(s).wireType, DecodeTag(s).rest);
               && (p.None? ==> DecodeLoop(fields, st, s) == None)
               && (p.Some? ==>
                     DecodeLoop(fields, st, s) == DecodeLoop(fields, entered.(m := p.value.value), p.value.rest)))
  {
  }

  lemma LoopEnd(fields: seq<Field>, st: Progress)
    requires ProgressOk(fields, st)
    ensures DecodeLoop(fields, st, []) == Some(st)
  {
  }

  /** The bookkeeping before a field is decoded. */
  method Enter(fields: seq<Field>, i: nat, required: nat, seen: array<bool>, m: seq<seq<Value>>, partial: Option<nat>)
    returns (ok: bool, m': seq<seq<Value>>, partial': Option<nat>)
    requires i < |fields| && ProgressOk(fields, Progress(m, SeenSet(seen[..]), partial))
    requires seen.Length == MAX_REQUIRED && required == RequiredBefore(fields, i)
    modifies seen
    ensures |m'| == |fields|
    ensures var r := EnterField(fields, i, Progress(m, old(SeenSet(seen[..])), partial));
            if r.None? then !ok else ok && r.value == Progress(m', SeenSet(seen[..]), partial')
  {
    ok, m', partial' := true, m, partial;
    if fields[i].htype.FixedArray? && partial != Some(i) {
      if partial.Some? && |m[partial.value]| != fields[partial.value].htype.max {
        return false, m, partial;
      }
      m', partial' := m[i := []], Some(i);
    }
    if fields[i].htype.Required? && required < MAX_REQUIRED {
      seen[required] := true;
      assert SeenSet(seen[..]) == old(SeenSet(seen[..])) + {required};
    }
  }

  /** Every required field that has a bit has it set. */
  method CheckRequired(fields: seq<Field>, seen: array<bool>, count: nat) returns (ok: bool)
    requires seen.Length == MAX_REQUIRED && count == RequiredBefore(fields, |fields|)
    ensures ok == AllRequiredSeen(fields, SeenSet(seen[..]))
  {
    var n := if count > MAX_REQUIRED then MAX_REQUIRED else count;
    for k := 0 to n
      invariant forall j :: 0 <= j < k ==> seen[j]
    {
      if !seen[k] {
        assert k !in SeenSet(seen[..]);
        return false;
      }
    }
    ok := true;
  }

  /** pb_decode. */
  method Get(stream: IStream, fields: seq<Field>) returns (ok: bool, m: seq<seq<Value>>)
    requires WellFormed(fields)
    modifies stream
    ensures var r := Decode(fields, old(stream.left)); if r.None? then !ok else ok && m == r.value
    ensures ok ==> Shaped(fields, m)
  {
    ghost var s := stream.left;
    ok, m := GetFields(stream, fields, Defaults(fields));
    if ok {
      DecodedIsShaped(fields, s);
    }
  }

  /** What a sender and a receiver do together: encode into a buffer of the given size, and decode what was written. The
      encoder reports success exactly if the struct is encodable and its encoding fits, and then the receiver has the
      same struct exactly if no string fills its whole array. */
  method EncodeThenDecode(fields: seq<Field>, m: seq<seq<Value>>, size: nat)
    returns (sent: bool, received: bool, back: seq<seq<Value>>)
    requires WellFormed(fields) && Typed(fields, m) && |Encode(fields, m)| < TWO32
    ensures sent <==> Encodable(fields, m) && |Encode(fields, m)| <= size
    ensures sent ==> (received && back == m <==> Terminated(fields, m))
  {
    hide Encode, Encodable, Terminated, WellFormed, Typed, Decode;
    var buffer := new Encoders.OStream(size, []);
    var status := Encoders.PutMessage(buffer, fields, m);
    sent, received, back := status.Done?, false, [];
    if sent {
      assert buffer.output == Encode(fields, m);
      RoundTripIff(fields, m);
      var stream := new IStream(buffer.output);
      received, back := Get(stream, fields);
    }
  }
}
