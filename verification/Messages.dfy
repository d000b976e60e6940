/** Message descriptors, the structs they describe, and the bytes a struct encodes to. */
module Messages {
  import opened Basics
  import opened Wire

  /** How a value is stored and sent. The width of an integer and the capacity of a byte string come from data_size;
      a string's capacity counts its terminator. */
  datatype LType =
    | Boolean
    | Varint(width: nat)
    | UVarint(width: nat)
    | SVarint(width: nat)
    | Fixed32
    | Fixed64
    | Bytes(capacity: nat)
    | String(capacity: nat)
    | FixedBytes(size: nat)
    | Message(fields: seq<Field>)

  /** How often a value occurs. Optional has a has_ flag, Singular has none (proto3); Repeated has a count,
      FixedArray has none; the members of a Oneof share one which_ tag. */
  datatype HType = Required | Optional | Singular | Repeated(max: nat) | FixedArray(max: nat) | Oneof(union: nat)

  datatype Field = Field(tag: nat, htype: HType, ltype: LType)

  /** A struct has one slot per field: the values present, in order. */
  datatype Value = Number(n: int) | Octets(b: seq<byte>) | Struct(slots: seq<seq<Value>>)

  const MAX_TAG: nat := 0x2000_0000

  // ---- descriptors ----

  predicate WellFormed(fields: seq<Field>)
    decreases fields
  {
    && (forall i, j :: 0 <= i < j < |fields| ==> fields[i].tag != fields[j].tag)
    && (forall i :: 0 <= i < |fields| ==> WellFormedField(fields[i]))
  }

  predicate WellFormedField(f: Field)
    decreases f
  {
    0 < f.tag < MAX_TAG && WellTyped(f.ltype)
  }

  predicate WellTyped(lt: LType)
    decreases lt
  {
    match lt
    case Varint(w) => w in {1, 2, 4, 8}
    case UVarint(w) => w in {1, 2, 4, 8}
    case SVarint(w) => w in {1, 2, 4, 8}
    case String(capacity) => capacity > 0
    case Message(fields) => WellFormed(fields)
    case _ => true
  }

  predicate Packable(lt: LType) {
    lt.Boolean? || lt.Varint? || lt.UVarint? || lt.SVarint? || lt.Fixed32? || lt.Fixed64?
  }

  predicate IsArray(ht: HType) {
    ht.Repeated? || ht.FixedArray?
  }

  // ---- what the types of a struct allow ----

  predicate CountFits(ht: HType, n: nat) {
    match ht
    case Required => n == 1
    case Optional => n <= 1
    case Singular => n == 1
    case Repeated(_) => true
    case FixedArray(max) => n == max
    case Oneof(_) => n <= 1
  }

  predicate TypedValue(lt: LType, v: Value)
    decreases lt, 0
  {
    match lt
    case Boolean => v.Number? && 0 <= v.n <= 1
    case Varint(w) => v.Number? && w <= 8 && InSigned(v.n, w)
    case UVarint(w) => v.Number? && w <= 8 && 0 <= v.n < Pow2(8 * w) && v.n < TWO64
    case SVarint(w) => v.Number? && w <= 8 && InSigned(v.n, w)
    case Fixed32 => v.Number? && 0 <= v.n < TWO32
    case Fixed64 => v.Number? && 0 <= v.n < TWO64
    case Bytes(_) => v.Octets?
    case String(capacity) => v.Octets? && |v.b| <= capacity && 0 !in v.b
    case FixedBytes(size) => v.Octets? && |v.b| == size
    case Message(fields) => v.Struct? && Typed(fields, v.slots)
  }

  predicate TypedSlot(f: Field, slot: seq<Value>)
    decreases f
  {
    CountFits(f.htype, |slot|) && forall k :: 0 <= k < |slot| ==> TypedValue(f.ltype, slot[k])
  }

  predicate SameUnion(a: HType, b: HType) {
    a.Oneof? && b.Oneof? && a.union == b.union
  }

  /** A struct of this descriptor: every slot has its type, and a union holds one member at most. */
  predicate Typed(fields: seq<Field>, m: seq<seq<Value>>)
    decreases fields
  {
    && |m| == |fields|
    && (forall i :: 0 <= i < |fields| ==> TypedSlot(fields[i], m[i]))
    && (forall i, j :: 0 <= i < j < |fields| && SameUnion(fields[i].htype, fields[j].htype) ==>
       m[i] == [] || m[j] == [])
  }

  // ---- what the encoder and the decoder further ask for ----

  /** The encoder refuses counts and sizes beyond the declared ones. */
  predicate EncodableValue(lt: LType, v: Value)
    requires TypedValue(lt, v)
    decreases lt, 0
  {
    match lt
    case Bytes(capacity) => |v.b| <= capacity
    case Message(fields) => Encodable(fields, v.slots)
    case _ => true
  }

  predicate EncodableSlot(f: Field, slot: seq<Value>)
    requires TypedSlot(f, slot)
    decreases f
  {
    && (IsArray(f.htype) ==> |slot| <= f.htype.max)
    && forall k :: 0 <= k < |slot| ==> EncodableValue(f.ltype, slot[k])
  }

  predicate Encodable(fields: seq<Field>, m: seq<seq<Value>>)
    requires Typed(fields, m)
    decreases fields
  {
    forall i :: 0 <= i < |fields| ==> EncodableSlot(fields[i], m[i])
  }

  /** Every string has room for its terminator; the decoder asks for that, the encoder does not. */
  predicate TerminatedValue(lt: LType, v: Value)
    requires TypedValue(lt, v)
    decreases lt, 0
  {
    match lt
    case String(capacity) => |v.b| < capacity
    case Message(fields) => Terminated(fields, v.slots)
    case _ => true
  }

  predicate Terminated(fields: seq<Field>, m: seq<seq<Value>>)
    requires Typed(fields, m)
    decreases fields
  {
    forall i :: 0 <= i < |fields| ==> TerminatedSlot(fields[i], m[i])
  }

  predicate TerminatedSlot(f: Field, slot: seq<Value>)
    requires TypedSlot(f, slot)
    decreases f
  {
    forall k :: 0 <= k < |slot| ==> TerminatedValue(f.ltype, slot[k])
  }

  // ---- proto3 defaults ----

  /** pb_check_proto3_default_value for one value. */
  predicate IsZero(lt: LType, v: Value)
    requires TypedValue(lt, v)
    decreases lt, 0
  {
    match lt
    case Bytes(_) => |v.b| == 0
    case String(_) => |v.b| == 0
    case FixedBytes(size) => size == 0
    case Message(fields) => AllDefault(fields, v.slots)
    case _ => v.n == 0
  }

  predicate AllDefault(fields: seq<Field>, m: seq<seq<Value>>)
    requires Typed(fields, m)
    decreases fields
  {
    forall i :: 0 <= i < |fields| ==> IsDefault(fields[i], m[i])
  }

  predicate IsDefault(f: Field, slot: seq<Value>)
    requires TypedSlot(f, slot)
    decreases f
  {
    match f.htype
    case Required => false
    case Optional => slot == []
    case Singular => IsZero(f.ltype, slot[0])
    case Repeated(_) => slot == []
    case FixedArray(_) => false
    case Oneof(_) => slot == []
  }

  function DefaultValue(lt: LType): Value
    decreases lt
  {
    match lt
    case Bytes(_) => Octets([])
    case String(_) => Octets([])
    case FixedBytes(size) => Octets(seq(size, _ => 0))
    case Message(fields) => Struct(Defaults(fields))
    case _ => Number(0)
  }

  function DefaultSlot(f: Field): seq<Value>
    decreases f
  {
    if f.htype.Required? || f.htype.Singular? then [DefaultValue(f.ltype)] else []
  }

  /** pb_message_set_to_defaults. */
  function Defaults(fields: seq<Field>): (m: seq<seq<Value>>)
    ensures |m| == |fields|
    decreases fields
  {
    seq(|fields|, i requires 0 <= i < |fields| => DefaultSlot(fields[i]))
  }

  /** A value the encoder leaves out is the one the decoder starts from. */
  lemma {:induction false} ZeroIsDefault(lt: LType, v: Value)
    requires TypedValue(lt, v) && IsZero(lt, v)
    ensures v == DefaultValue(lt)
    decreases lt
  {
    match lt
    case Message(fields) =>
      AllDefaultIsDefaults(fields, v.slots);
    case _ =>
  }

  lemma {:induction false} AllDefaultIsDefaults(fields: seq<Field>, m: seq<seq<Value>>)
    requires Typed(fields, m) && AllDefault(fields, m)
    ensures m == Defaults(fields)
    decreases fields
  {
    forall i | 0 <= i < |fields|
      ensures m[i] == DefaultSlot(fields[i])
    {
      DefaultIsDefaultSlot(fields[i], m[i]);
    }
  }

  lemma {:induction false} DefaultIsDefaultSlot(f: Field, slot: seq<Value>)
    requires TypedSlot(f, slot) && IsDefault(f, slot)
    ensures slot == DefaultSlot(f)
    decreases f
  {
    if f.htype.Singular? {
      ZeroIsDefault(f.ltype, slot[0]);
    }
  }

  // ---- the encoding ----

  function WireTypeOf(lt: LType): nat {
    match lt
    case Boolean => WT_VARINT
    case Varint(_) => WT_VARINT
    case UVarint(_) => WT_VARINT
    case SVarint(_) => WT_VARINT
    case Fixed32 => WT_32BIT
    case Fixed64 => WT_64BIT
    case _ => WT_STRING
  }

  function Prefixed(b: seq<byte>): seq<byte> {
    EncodeVarint(|b|) + b
  }

  function EncodeValue(lt: LType, v: Value): seq<byte>
    requires TypedValue(lt, v)
    decreases lt, 0
  {
    match lt
    case Boolean => EncodeVarint(v.n)
    case Varint(_) => EncodeVarint(Unsigned(v.n, 8))
    case UVarint(_) => EncodeVarint(v.n)
    case SVarint(_) => EncodeVarint(ZigZag(v.n))
    case Fixed32 => LittleEndian(v.n, 4)
    case Fixed64 => LittleEndian(v.n, 8)
    case Message(fields) => Prefixed(Encode(fields, v.slots))
    case _ => Prefixed(v.b)
  }

  /** Values one after another, without tags. */
  function EncodePacked(lt: LType, vs: seq<Value>): seq<byte>
    requires forall k :: 0 <= k < |vs| ==> TypedValue(lt, vs[k])
    decreases lt, 1, |vs|
  {
    if vs == [] then [] else EncodeValue(lt, vs[0]) + EncodePacked(lt, vs[1..])
  }

  /** Values one after another, each with its tag. */
  function EncodeTagged(f: Field, vs: seq<Value>): seq<byte>
    requires forall k :: 0 <= k < |vs| ==> TypedValue(f.ltype, vs[k])
    decreases f, 0, |vs|
  {
    if vs == [] then []
    else EncodeTag(f.tag, WireTypeOf(f.ltype)) + EncodeValue(f.ltype, vs[0]) + EncodeTagged(f, vs[1..])
  }

  function EncodeSlot(f: Field, slot: seq<Value>): seq<byte>
    requires TypedSlot(f, slot)
    decreases f, 1
  {
    if slot == [] then []
    else if IsArray(f.htype) && Packable(f.ltype) then
      EncodeTag(f.tag, WT_STRING) + Prefixed(EncodePacked(f.ltype, slot))
    else if f.htype.Singular? && IsZero(f.ltype, slot[0]) then []
    else EncodeTagged(f, slot)
  }

  function EncodeSlots(fields: seq<Field>, m: seq<seq<Value>>): seq<byte>
    requires |m| == |fields| && forall i :: 0 <= i < |fields| ==> TypedSlot(fields[i], m[i])
    decreases fields, 0
  {
    if fields == [] then [] else EncodeSlot(fields[0], m[0]) + EncodeSlots(fields[1..], m[1..])
  }

  function Encode(fields: seq<Field>, m: seq<seq<Value>>): seq<byte>
    requires Typed(fields, m)
    decreases fields, 1
  {
    EncodeSlots(fields, m)
  }

  lemma TaggedOne(f: Field, vs: seq<Value>)
    requires |vs| == 1 && TypedValue(f.ltype, vs[0])
    ensures EncodeTagged(f, vs) == EncodeTag(f.tag, WireTypeOf(f.ltype)) + EncodeValue(f.ltype, vs[0])
  {
    hide TypedValue, EncodeTag, EncodeValue;
    assert vs[1..] == [];
  }

  lemma SlotsNext(fields: seq<Field>, m: seq<seq<Value>>, i: nat)
    requires Typed(fields, m) && i < |fields|
    ensures TypedSlot(fields[i], m[i])
    ensures EncodeSlots(fields[i..], m[i..]) == EncodeSlot(fields[i], m[i]) + EncodeSlots(fields[i + 1..], m[i + 1..])
  {
    hide TypedSlot, EncodeSlot;
    assert fields[i..][0] == fields[i] && fields[i..][1..] == fields[i + 1..];
    assert m[i..][0] == m[i] && m[i..][1..] == m[i + 1..];
  }
}
