/** pb_encode as it runs: a stream that counts, or writes up to a limit, and a dry run before every nested message. */
module Encoders {
  import opened Basics
  import opened Wire
  import opened Messages

  datatype Status = Done | StreamFull | Refused | SizeChanged

  /** What a stream is at one moment. A sizing stream has no callback and only counts; output is what the callback of
      any other stream has received. */
  datatype Sink = Sink(sizing: bool, maxSize: nat, written: nat, output: seq<byte>)

  predicate Within(s: Sink) {
    !s.sizing ==> s.written <= s.maxSize
  }

  predicate Fits(s: Sink, n: nat) {
    s.sizing || s.written + n <= s.maxSize
  }

  function After(s: Sink, b: seq<byte>): Sink {
    s.(written := s.written + |b|, output := s.output + if s.sizing then [] else b)
  }

  /** From s0 to s1 a front part of b was written, or only counted, and nothing else. */
  predicate Wrote(s0: Sink, b: seq<byte>, s1: Sink) {
    && s0.written <= s1.written <= s0.written + |b|
    && s1 == After(s0, b[..s1.written - s0.written])
  }

  /** A step from s0 to s1 that had to write b: it succeeds exactly if b is encodable and fits. Whether it succeeds or
      not, it has written a front part of b and kept within the limit. */
  predicate Outcome(s0: Sink, b: seq<byte>, encodable: bool, status: Status, s1: Sink) {
    && Within(s1) && Wrote(s0, b, s1)
    && (status.Done? <==> encodable && Fits(s0, |b|))
    && (status.Done? ==> s1 == After(s0, b))
    && (status.StreamFull? ==> !Fits(s0, |b|))
    && (status.Refused? ==> !encodable)
    && !status.SizeChanged?
  }

  lemma AfterJoin(s: Sink, b: seq<byte>, c: seq<byte>)
    ensures After(After(s, b), c) == After(s, b + c)
  {
    assert s.output + b + c == s.output + (b + c);
  }

  /** After b, a last part c. */
  lemma Then(s0: Sink, b: seq<byte>, c: seq<byte>, encodable: bool, status: Status, s1: Sink)
    requires Outcome(After(s0, b), c, encodable, status, s1)
    ensures Outcome(s0, b + c, encodable, status, s1)
  {
    AfterJoin(s0, b, c);
    WroteLast(s0, b, c, s1);
  }

  lemma WroteLast(s0: Sink, b: seq<byte>, c: seq<byte>, s1: Sink)
    requires Wrote(After(s0, b), c, s1)
    ensures Wrote(s0, b + c, s1)
  {
    hide After;
    var k := s1.written - After(s0, b).written;
    AfterCounts(s0, b);
    AfterJoin(s0, b, c[..k]);
    assert (b + c)[..|b| + k] == b + c[..k];
  }

  lemma AfterCounts(s: Sink, b: seq<byte>)
    ensures After(s, b).written == s.written + |b|
  {
  }

  lemma WroteFront(s0: Sink, c: seq<byte>, d: seq<byte>, s1: Sink)
    requires Wrote(s0, c, s1)
    ensures Wrote(s0, c + d, s1)
  {
    var k := s1.written - s0.written;
    assert (c + d)[..k] == c[..k];
  }

  /** After b, a part c that fails: the whole fails. */
  lemma Short(s0: Sink, b: seq<byte>, c: seq<byte>, d: seq<byte>, part: bool, encodable: bool, status: Status, s1: Sink)
    requires Outcome(After(s0, b), c, part, status, s1) && !status.Done? && (encodable ==> part)
    ensures Outcome(s0, b + (c + d), encodable, status, s1)
  {
    WroteFront(After(s0, b), c, d, s1);
    WroteLast(s0, b, c + d, s1);
  }

  /** pb_ostream_t. */
  class OStream {
    const sizing: bool
    const maxSize: nat
    var written: nat
    var output: seq<byte>

    constructor Sizing()
      ensures State() == Sink(true, 0, 0, [])
    {
      sizing, maxSize, written, output := true, 0, 0, [];
    }

    constructor (maxSize: nat, output: seq<byte>)
      ensures State() == Sink(false, maxSize, 0, output)
    {
      sizing, written := false, 0;
      this.maxSize, this.output := maxSize, output;
    }

    function State(): Sink
      reads this
    {
      Sink(sizing, maxSize, written, output)
    }

    /** pb_write. */
    method Write(b: seq<byte>) returns (status: Status)
      requires Within(State())
      modifies this
      ensures Outcome(old(State()), b, true, status, State()) && (!status.Done? ==> State() == old(State()))
    {
      assert b[..0] == [] && b[..|b|] == b;
      AfterNothing(State());
      if |b| > 0 && !sizing {
        if written + |b| > maxSize {
          return StreamFull;
        }
        output := output + b;
      }
      written := written + |b|;
      status := Done;
    }

    /** Counts n bytes without having them. */
    method Count(ghost b: seq<byte>, n: nat) returns (status: Status)
      requires Within(State()) && sizing && n == |b|
      modifies this
      ensures Outcome(old(State()), b, true, status, State())
    {
      assert b[..n] == b;
      written := written + n;
      status := Done;
    }
  }

  method PutVarint(stream: OStream, v: nat) returns (status: Status)
    requires Within(stream.State()) && v < TWO64
    modifies stream
    ensures Outcome(old(stream.State()), EncodeVarint(v), true, status, stream.State())
  {
    if v <= 0x7F {
      status := stream.Write([v]);
      return;
    }
    var buffer, n := VarintBytes(v);
    status := stream.Write(buffer[..n]);
  }

  /** The varint of a value of more than one byte, in the ten bytes the source sets aside. */
  method VarintBytes(v: nat) returns (buffer: array<byte>, i: nat)
    requires 0x7F < v < TWO64
    ensures fresh(buffer) && i <= buffer.Length == 10 && buffer[..i] == EncodeVarint(v)
  {
    hide Pow2, Digits, EncodeVarint;
    buffer := new byte[10](_ => 0);
    var value: nat := v;
    i := 0;
    Pow2Is();
    Pow2Monotone(64, 70);
    assert buffer[..0] == [];
    NoDigits(v);
    while value > 0
      invariant i <= 10 && value < Pow2(7 * (10 - i))
      invariant Digits(v, buffer[..i], value)
    {
      SevenBits(value, 10 - i);
      ghost var before := buffer[..i];
      buffer[i] := value % 128 + 128;
      assert buffer[..i + 1] == before + [value % 128 + 128];
      NextDigit(v, before, value);
      value, i := value / 128, i + 1;
    }
    ghost var before := buffer[..i];
    LastDigit(v, before);
    buffer[i - 1] := buffer[i - 1] - 128;
    assert buffer[..i] == before[..i - 1] + [before[i - 1] - 128];
  }

  lemma NoDigits(v: nat)
    requires v > 0
    ensures Digits(v, [], v)
  {
  }

  lemma LastDigit(v: nat, digits: seq<byte>)
    requires Digits(v, digits, 0)
    ensures |digits| > 0 && digits[|digits| - 1] >= 128
    ensures EncodeVarint(v) == digits[..|digits| - 1] + [digits[|digits| - 1] - 128]
  {
  }

  /** The digits written so far and the value left make up v; the last digit still has its top bit set. */
  predicate Digits(v: nat, digits: seq<byte>, value: nat) {
    if value > 0 then EncodeVarint(v) == digits + EncodeVarint(value)
    else
      var n := |digits|;
      n > 0 && digits[n - 1] >= 128 && EncodeVarint(v) == digits[..n - 1] + [digits[n - 1] - 128]
  }

  lemma NextDigit(v: nat, digits: seq<byte>, value: nat)
    requires value > 0 && Digits(v, digits, value)
    ensures Digits(v, digits + [value % 128 + 128], value / 128)
  {
    var next := digits + [value % 128 + 128];
    assert next[..|next| - 1] == digits;
    assert value >= 128 ==> EncodeVarint(v) == next + EncodeVarint(value / 128);
  }

  lemma SevenBits(value: nat, left: nat)
    requires 0 < value < Pow2(7 * left)
    ensures left > 0 && value / 128 < Pow2(7 * (left - 1))
  {
    hide Pow2;
    Pow2Is();
    if left > 0 {
      Pow2Add(7 * (left - 1), 7);
    }
  }

  method PutTag(stream: OStream, tag: nat, wireType: nat) returns (status: Status)
    requires Within(stream.State()) && tag < MAX_TAG && wireType < 8
    modifies stream
    ensures Outcome(old(stream.State()), EncodeTag(tag, wireType), true, status, stream.State())
  {
    status := PutVarint(stream, tag * 8 + wireType);
  }

  /** pb_encode_string: a length and the bytes. */
  method PutPrefixed(stream: OStream, b: seq<byte>) returns (status: Status)
    requires Within(stream.State()) && |b| < TWO64
    modifies stream
    ensures Outcome(old(stream.State()), Prefixed(b), true, status, stream.State())
  {
    hide EncodeVarint, Outcome;
    ghost var s0 := stream.State();
    status := PutVarint(stream, |b|);
    if !status.Done? {
      FirstShort(s0, EncodeVarint(|b|), b, true, true, status, stream.State());
      return;
    }
    DoneIsAfter(s0, EncodeVarint(|b|), true, status, stream.State());
    status := stream.Write(b);
    Then(s0, EncodeVarint(|b|), b, true, status, stream.State());
  }

  lemma DoneIsAfter(s0: Sink, b: seq<byte>, encodable: bool, status: Status, s1: Sink)
    requires Outcome(s0, b, encodable, status, s1) && status.Done?
    ensures s1 == After(s0, b) && Within(s1) && encodable
  {
  }

  /** A first part that fails. */
  lemma FirstShort(s0: Sink, c: seq<byte>, d: seq<byte>, part: bool, encodable: bool, status: Status, s1: Sink)
    requires Outcome(s0, c, part, status, s1) && !status.Done? && (encodable ==> part)
    ensures Outcome(s0, c + d, encodable, status, s1)
  {
    WroteFront(s0, c, d, s1);
  }

  method PutNumber(stream: OStream, lt: LType, v: Value) returns (status: Status)
    requires Within(stream.State()) && Packable(lt) && TypedValue(lt, v)
    modifies stream
    ensures Outcome(old(stream.State()), EncodeValue(lt, v), true, status, stream.State())
  {
    Pow2Is();
    match lt
    case Boolean => status := PutVarint(stream, v.n);
    case Varint(_) => status := PutVarint(stream, Unsigned(v.n, 8));
    case UVarint(_) => status := PutVarint(stream, v.n);
    case SVarint(_) => status := PutVarint(stream, ZigZag(v.n));
    case Fixed32 => status := stream.Write(LittleEndian(v.n, 4));
    case Fixed64 => status := stream.Write(LittleEndian(v.n, 8));
  }

  // ---- arrays of numbers ----

  lemma FixedSize(lt: LType, vs: seq<Value>)
    requires lt.Fixed32? || lt.Fixed64?
    requires forall k :: 0 <= k < |vs| ==> TypedValue(lt, vs[k])
    ensures |EncodePacked(lt, vs)| == (if lt.Fixed32? then 4 else 8) * |vs|
  {
    if vs != [] {
      FixedSize(lt, vs[1..]);
    }
  }

  lemma PackedNext(lt: LType, vs: seq<Value>, i: nat)
    requires i < |vs| && forall k :: 0 <= k < |vs| ==> TypedValue(lt, vs[k])
    ensures EncodePacked(lt, vs[i..]) == EncodeValue(lt, vs[i]) + EncodePacked(lt, vs[i + 1..])
  {
    assert vs[i..][1..] == vs[i + 1..];
  }

  /** The length of a packed array: multiplied out for fixed widths, counted by a sizing stream otherwise. */
  method PackedSize(lt: LType, vs: seq<Value>) returns (size: nat)
    requires Packable(lt) && forall k :: 0 <= k < |vs| ==> TypedValue(lt, vs[k])
    ensures size == |EncodePacked(lt, vs)|
  {
    if lt.Fixed32? {
      FixedSize(lt, vs);
      return 4 * |vs|;
    } else if lt.Fixed64? {
      FixedSize(lt, vs);
      return 8 * |vs|;
    }
    hide TypedValue, EncodeValue;
    var counter := new OStream.Sizing();
    assert vs[0..] == vs;
    for i := 0 to |vs|
      invariant counter.State().sizing && counter.written + |EncodePacked(lt, vs[i..])| == |EncodePacked(lt, vs)|
    {
      PackedNext(lt, vs, i);
      var status := PutNumber(counter, lt, vs[i]);
    }
    size := counter.written;
  }

  method PutPackedItems(stream: OStream, lt: LType, vs: seq<Value>) returns (status: Status)
    requires Within(stream.State()) && Packable(lt) && forall k :: 0 <= k < |vs| ==> TypedValue(lt, vs[k])
    modifies stream
    ensures Outcome(old(stream.State()), EncodePacked(lt, vs), true, status, stream.State())
  {
    hide TypedValue, EncodeValue, After, Outcome, EncodePacked;
    ghost var s0, done: seq<byte> := stream.State(), [];
    PackedEnd(lt, vs);
    AfterNothing(s0);
    for i := 0 to |vs|
      invariant Within(stream.State()) && stream.State() == After(s0, done)
      invariant EncodePacked(lt, vs) == done + EncodePacked(lt, vs[i..])
    {
      PackedNext(lt, vs, i);
      ghost var value, rest := EncodeValue(lt, vs[i]), EncodePacked(lt, vs[i + 1..]);
      status := PutNumber(stream, lt, vs[i]);
      if !status.Done? {
        Short(s0, done, value, rest, true, true, status, stream.State());
        return;
      }
      DoneIsAfter(After(s0, done), value, true, status, stream.State());
      AfterJoin(s0, done, value);
      Regroup(done, value, rest);
      done := done + value;
    }
    status := Done;
    AllDone(s0, done, stream.State());
  }

  lemma PackedEnd(lt: LType, vs: seq<Value>)
    requires forall k :: 0 <= k < |vs| ==> TypedValue(lt, vs[k])
    ensures vs[0..] == vs && EncodePacked(lt, vs[|vs|..]) == []
  {
  }

  lemma AfterNothing(s: Sink)
    ensures After(s, []) == s
  {
  }

  /** All parts were written. */
  lemma AllDone(s0: Sink, b: seq<byte>, s1: Sink)
    requires s1 == After(s0, b) && Within(s1)
    ensures Outcome(s0, b + [], true, Done, s1)
    ensures Outcome(s0, b, true, Done, s1)
  {
    assert b + [] == b;
  }

  method PutPackedArray(stream: OStream, f: Field, slot: seq<Value>) returns (status: Status)
    requires Within(stream.State()) && WellFormedField(f) && IsArray(f.htype) && Packable(f.ltype) && slot != []
    requires TypedSlot(f, slot) && |EncodeSlot(f, slot)| < TWO64
    modifies stream
    ensures Outcome(old(stream.State()), EncodeSlot(f, slot), true, status, stream.State())
  {
    hide TypedValue, EncodePacked, EncodeTag, EncodeVarint, After, Outcome;
    ghost var s0, tag, all := stream.State(), EncodeTag(f.tag, WT_STRING), EncodePacked(f.ltype, slot);
    status := PutTag(stream, f.tag, WT_STRING);
    if !status.Done? {
      FirstShort(s0, tag, Prefixed(all), true, true, status, stream.State());
      return;
    }
    DoneIsAfter(s0, tag, true, status, stream.State());
    status := PutPackedBody(stream, f.ltype, slot);
    Then(s0, tag, Prefixed(all), true, status, stream.State());
  }

  /** The size of a packed array, then its data; a sizing stream only counts the latter. */
  method PutPackedBody(stream: OStream, lt: LType, vs: seq<Value>) returns (status: Status)
    requires Within(stream.State()) && Packable(lt) && forall k :: 0 <= k < |vs| ==> TypedValue(lt, vs[k])
    requires |Prefixed(EncodePacked(lt, vs))| < TWO64
    modifies stream
    ensures Outcome(old(stream.State()), Prefixed(EncodePacked(lt, vs)), true, status, stream.State())
  {
    hide TypedValue, EncodePacked, EncodeVarint, After, Outcome;
    ghost var s0, all := stream.State(), EncodePacked(lt, vs);
    var size := PackedSize(lt, vs);
    status := PutVarint(stream, size);
    if !status.Done? {
      FirstShort(s0, EncodeVarint(size), all, true, true, status, stream.State());
      return;
    }
    DoneIsAfter(s0, EncodeVarint(size), true, status, stream.State());
    if stream.sizing {
      status := stream.Count(all, size);
    } else {
      status := PutPackedItems(stream, lt, vs);
    }
    Then(s0, EncodeVarint(size), all, true, status, stream.State());
  }

  // ---- values, fields and messages ----

  lemma TaggedNext(f: Field, vs: seq<Value>, i: nat)
    requires i < |vs| && forall k :: 0 <= k < |vs| ==> TypedValue(f.ltype, vs[k])
    ensures EncodeTagged(f, vs[i..])
              == EncodeTag(f.tag, WireTypeOf(f.ltype)) + EncodeValue(f.ltype, vs[i]) + EncodeTagged(f, vs[i + 1..])
  {
    hide TypedValue, EncodeTag, EncodeValue;
    assert vs[i..][1..] == vs[i + 1..];
  }

  lemma TaggedEnd(f: Field, vs: seq<Value>)
    requires forall k :: 0 <= k < |vs| ==> TypedValue(f.ltype, vs[k])
    ensures vs[0..] == vs && EncodeTagged(f, vs[|vs|..]) == []
  {
  }

  /** The encoder of one value of each type. */
  method PutValue(stream: OStream, lt: LType, v: Value) returns (status: Status)
    requires Within(stream.State()) && WellTyped(lt) && TypedValue(lt, v) && |EncodeValue(lt, v)| < TWO64
    modifies stream
    ensures Outcome(old(stream.State()), EncodeValue(lt, v), EncodableValue(lt, v), status, stream.State())
    decreases lt, 0
  {
    hide Outcome, EncodeVarint;
    if Packable(lt) {
      status := PutNumber(stream, lt, v);
    } else if lt.Message? {
      status := PutSubmessage(stream, lt.fields, v.slots);
    } else if lt.Bytes? && |v.b| > lt.capacity {
      status := Refused;
      RefusedOutcome(stream.State(), EncodeValue(lt, v));
    } else {
      status := PutPrefixed(stream, v.b);
    }
  }

  lemma RefusedOutcome(s: Sink, b: seq<byte>)
    requires Within(s)
    ensures Outcome(s, b, false, Refused, s)
  {
  }

  /** One record: a tag and a value. */
  method PutRecord(stream: OStream, f: Field, v: Value) returns (status: Status)
    requires Within(stream.State()) && WellFormedField(f) && TypedValue(f.ltype, v)
    requires |EncodeTag(f.tag, WireTypeOf(f.ltype)) + EncodeValue(f.ltype, v)| < TWO64
    modifies stream
    ensures Outcome(old(stream.State()), EncodeTag(f.tag, WireTypeOf(f.ltype)) + EncodeValue(f.ltype, v),
                    EncodableValue(f.ltype, v), status, stream.State())
    decreases f, 0
  {
    hide Outcome, After, EncodeTag, EncodeValue, EncodableValue;
    ghost var s0, tag := stream.State(), EncodeTag(f.tag, WireTypeOf(f.ltype));
    status := PutTag(stream, f.tag, WireTypeOf(f.ltype));
    if !status.Done? {
      FirstShort(s0, tag, EncodeValue(f.ltype, v), true, EncodableValue(f.ltype, v), status, stream.State());
      return;
    }
    DoneIsAfter(s0, tag, true, status, stream.State());
    status := PutValue(stream, f.ltype, v);
    Then(s0, tag, EncodeValue(f.ltype, v), EncodableValue(f.ltype, v), status, stream.State());
  }

  predicate AllEncodable(lt: LType, vs: seq<Value>)
    requires forall k :: 0 <= k < |vs| ==> TypedValue(lt, vs[k])
  {
    forall k :: 0 <= k < |vs| ==> EncodableValue(lt, vs[k])
  }

  method PutTaggedArray(stream: OStream, f: Field, vs: seq<Value>) returns (status: Status)
    requires Within(stream.State()) && WellFormedField(f)
    requires forall k :: 0 <= k < |vs| ==> TypedValue(f.ltype, vs[k])
    requires |EncodeTagged(f, vs)| < TWO64
    modifies stream
    ensures Outcome(old(stream.State()), EncodeTagged(f, vs), AllEncodable(f.ltype, vs), status, stream.State())
    decreases f, 1
  {
    hide TypedValue, EncodeValue, After, Outcome, EncodeTagged, EncodeTag, EncodableValue;
    ghost var s0, done: seq<byte> := stream.State(), [];
    TaggedEnd(f, vs);
    AfterNothing(s0);
    for i := 0 to |vs|
      invariant Within(stream.State()) && stream.State() == After(s0, done)
      invariant EncodeTagged(f, vs) == done + EncodeTagged(f, vs[i..])
      invariant forall k :: 0 <= k < i ==> EncodableValue(f.ltype, vs[k])
    {
      TaggedNext(f, vs, i);
      ghost var record := EncodeTag(f.tag, WireTypeOf(f.ltype)) + EncodeValue(f.ltype, vs[i]);
      ghost var rest := EncodeTagged(f, vs[i + 1..]);
      status := PutRecord(stream, f, vs[i]);
      if !status.Done? {
        Short(s0, done, record, rest, EncodableValue(f.ltype, vs[i]), AllEncodable(f.ltype, vs), status,
          stream.State());
        return;
      }
      DoneIsAfter(After(s0, done), record, EncodableValue(f.ltype, vs[i]), status, stream.State());
      AfterJoin(s0, done, record);
      Regroup(done, record, rest);
      done := done + record;
    }
    status := Done;
    AllDone(s0, done, stream.State());
  }

  /** encode_array. */
  method PutArray(stream: OStream, f: Field, slot: seq<Value>) returns (status: Status)
    requires Within(stream.State()) && WellFormedField(f) && IsArray(f.htype)
    requires TypedSlot(f, slot) && |EncodeSlot(f, slot)| < TWO64
    modifies stream
    ensures Outcome(old(stream.State()), EncodeSlot(f, slot), EncodableSlot(f, slot), status, stream.State())
    decreases f, 2
  {
    hide Outcome, EncodeTagged, TypedValue, After;
    if |slot| == 0 {
      status := Done;
      AfterNothing(stream.State());
      AllDone(stream.State(), [], stream.State());
    } else if |slot| > f.htype.max {
      status := Refused;
      RefusedOutcome(stream.State(), EncodeSlot(f, slot));
    } else if Packable(f.ltype) {
      NumbersEncodable(f.ltype, slot);
      status := PutPackedArray(stream, f, slot);
    } else {
      status := PutTaggedArray(stream, f, slot);
    }
  }

  lemma NumbersEncodable(lt: LType, vs: seq<Value>)
    requires Packable(lt) && forall k :: 0 <= k < |vs| ==> TypedValue(lt, vs[k])
    ensures AllEncodable(lt, vs)
  {
  }

  // ---- proto3 defaults ----

  /** pb_check_proto3_default_value. */
  method CheckDefault(f: Field, slot: seq<Value>) returns (isDefault: bool)
    requires TypedSlot(f, slot)
    ensures isDefault == IsDefault(f, slot)
    decreases f
  {
    match f.htype
    case Required => return false;
    case Repeated(_) => return slot == [];
    case FixedArray(_) => return false;
    case Oneof(_) => return slot == [];
    case Optional => return slot == [];
    case Singular => isDefault := CheckZero(f.ltype, slot[0]);
  }

  method CheckZero(lt: LType, v: Value) returns (isZero: bool)
    requires TypedValue(lt, v)
    ensures isZero == IsZero(lt, v)
    decreases lt
  {
    match lt
    case Bytes(_) => return |v.b| == 0;
    case String(_) => return |v.b| == 0;
    case FixedBytes(size) => return size == 0;
    case Message(fields) => isZero := CheckFields(fields, v.slots);
    case _ => return v.n == 0;
  }

  method CheckFields(fields: seq<Field>, m: seq<seq<Value>>) returns (isDefault: bool)
    requires Typed(fields, m)
    ensures isDefault == AllDefault(fields, m)
    decreases fields
  {
    for i := 0 to |fields|
      invariant forall j :: 0 <= j < i ==> IsDefault(fields[j], m[j])
    {
      var one := CheckDefault(fields[i], m[i]);
      if !one {
        return false;
      }
    }
    isDefault := true;
  }

  /** Nothing that is left out would have been refused. */
  lemma {:induction false} ZeroIsEncodable(lt: LType, v: Value)
    requires TypedValue(lt, v) && IsZero(lt, v)
    ensures EncodableValue(lt, v)
    decreases lt
  {
    match lt
    case Message(fields) => DefaultsAreEncodable(fields, v.slots);
    case _ =>
  }

  lemma {:induction false} DefaultsAreEncodable(fields: seq<Field>, m: seq<seq<Value>>)
    requires Typed(fields, m) && AllDefault(fields, m)
    ensures Encodable(fields, m)
    decreases fields
  {
    forall i | 0 <= i < |fields|
      ensures EncodableSlot(fields[i], m[i])
    {
      DefaultIsEncodable(fields[i], m[i]);
    }
  }

  lemma {:induction false} DefaultIsEncodable(f: Field, slot: seq<Value>)
    requires TypedSlot(f, slot) && IsDefault(f, slot)
    ensures EncodableSlot(f, slot)
    decreases f
  {
    if f.htype.Singular? {
      ZeroIsEncodable(f.ltype, slot[0]);
    }
  }

  // ---- messages ----

  /** encode_basic_field. */
  method PutField(stream: OStream, f: Field, slot: seq<Value>) returns (status: Status)
    requires Within(stream.State()) && WellFormedField(f)
    requires TypedSlot(f, slot) && |EncodeSlot(f, slot)| < TWO64
    modifies stream
    ensures Outcome(old(stream.State()), EncodeSlot(f, slot), EncodableSlot(f, slot), status, stream.State())
    decreases f, 3
  {
    hide Outcome, TypedValue, EncodeTag, EncodeValue, After, EncodePacked;
    if IsArray(f.htype) {
      status := PutArray(stream, f, slot);
      return;
    }
    var present := slot != [];
    if f.htype.Singular? {
      var isDefault := CheckDefault(f, slot);
      present := !isDefault;
    }
    if present {
      OneRecord(f, slot);
      status := PutRecord(stream, f, slot[0]);
    } else {
      if f.htype.Singular? {
        DefaultIsEncodable(f, slot);
      }
      status := Done;
      AfterNothing(stream.State());
      AllDone(stream.State(), [], stream.State());
    }
  }

  lemma OneRecord(f: Field, slot: seq<Value>)
    requires TypedSlot(f, slot) && !IsArray(f.htype) && slot != [] && !(f.htype.Singular? && IsZero(f.ltype, slot[0]))
    ensures EncodeSlot(f, slot) == EncodeTag(f.tag, WireTypeOf(f.ltype)) + EncodeValue(f.ltype, slot[0])
    ensures EncodableSlot(f, slot) <==> EncodableValue(f.ltype, slot[0])
  {
    OneEncodable(f, slot);
    hide EncodeTag, EncodeValue, EncodeTagged;
    TaggedOne(f, slot);
  }

  lemma OneEncodable(f: Field, slot: seq<Value>)
    requires TypedSlot(f, slot) && !IsArray(f.htype) && slot != []
    ensures EncodableSlot(f, slot) <==> EncodableValue(f.ltype, slot[0])
  {
    assert slot == [slot[0]];
  }

  lemma SlotsEnd(fields: seq<Field>, m: seq<seq<Value>>)
    requires Typed(fields, m)
    ensures fields[0..] == fields && m[0..] == m && EncodeSlots(fields[|fields|..], m[|fields|..]) == []
  {
  }

  /** pb_encode. */
  method PutMessage(stream: OStream, fields: seq<Field>, m: seq<seq<Value>>) returns (status: Status)
    requires Within(stream.State()) && WellFormed(fields) && Typed(fields, m) && |Encode(fields, m)| < TWO64
    modifies stream
    ensures Outcome(old(stream.State()), Encode(fields, m), Encodable(fields, m), status, stream.State())
    decreases fields, 1
  {
    hide Outcome, After, EncodeSlot, EncodeSlots, EncodableSlot, TypedSlot, WellFormedField;
    ghost var s0, done: seq<byte> := stream.State(), [];
    SlotsEnd(fields, m);
    AfterNothing(s0);
    for i := 0 to |fields|
      invariant Within(stream.State()) && stream.State() == After(s0, done)
      invariant Encode(fields, m) == done + EncodeSlots(fields[i..], m[i..])
      invariant forall k :: 0 <= k < i ==> EncodableSlot(fields[k], m[k])
    {
      SlotsNext(fields, m, i);
      ghost var slot, rest := EncodeSlot(fields[i], m[i]), EncodeSlots(fields[i + 1..], m[i + 1..]);
      status := PutField(stream, fields[i], m[i]);
      if !status.Done? {
        Short(s0, done, slot, rest, EncodableSlot(fields[i], m[i]), Encodable(fields, m), status, stream.State());
        return;
      }
      DoneIsAfter(After(s0, done), slot, EncodableSlot(fields[i], m[i]), status, stream.State());
      AfterJoin(s0, done, slot);
      Regroup(done, slot, rest);
      done := done + slot;
    }
    status := Done;
    AllDone(s0, done, stream.State());
  }

  /** pb_encode_submessage: a dry run gives the size, and the second run into a stream of exactly that size writes
      exactly that much; "submsg size changed" is never reported. */
  method PutSubmessage(stream: OStream, fields: seq<Field>, m: seq<seq<Value>>) returns (status: Status)
    requires Within(stream.State()) && WellFormed(fields) && Typed(fields, m) && |Prefixed(Encode(fields, m))| < TWO64
    modifies stream
    ensures Outcome(old(stream.State()), Prefixed(Encode(fields, m)), Encodable(fields, m), status, stream.State())
    decreases fields, 2
  {
    hide EncodeVarint, Encode, Encodable;
    ghost var s0, b := stream.State(), Encode(fields, m);
    var counter := new OStream.Sizing();
    status := PutMessage(counter, fields, m);
    if !status.Done? {
      return;
    }
    var size := counter.written;
    assert size == |b| && Encodable(fields, m);
    status := PutVarint(stream, size);
    if !status.Done? {
      return;
    }
    if stream.sizing {
      status := stream.Count(b, size);
      Then(s0, EncodeVarint(size), b, true, status, stream.State());
      return;
    }
    if stream.written + size > stream.maxSize {
      return StreamFull;
    }
    ghost var s1 := stream.State();
    var sub := new OStream(size, stream.output);
    status := PutMessage(sub, fields, m);
    stream.written := stream.written + sub.written;
    stream.output := sub.output;
    assert stream.State() == After(s1, b);
    status := if sub.written != size then SizeChanged else status;
    Then(s0, EncodeVarint(size), b, true, status, stream.State());
  }
}
