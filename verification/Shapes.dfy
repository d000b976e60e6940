/** What pb_decode leaves in the struct, whatever the bytes, and exactly which structs come back from their encoding. */
module Shapes {
  import opened Basics
  import opened Wire
  import opened Messages
  import opened Parsing

  // ---- the shape a descriptor gives a struct ----

  /** Numbers are within their width, strings leave room for their terminator, and byte fields fit. */
  predicate ShapedValue(lt: LType, v: Value)
    decreases lt
  {
    match lt
    case Boolean => v.Number? && 0 <= v.n <= 1
    case Varint(w) => v.Number? && 0 <= 2 * v.n + Pow2(8 * w) < 2 * Pow2(8 * w)
    case UVarint(w) => v.Number? && 0 <= v.n < Pow2(8 * w)
    case SVarint(w) => v.Number? && 0 <= 2 * v.n + Pow2(8 * w) < 2 * Pow2(8 * w)
    case Fixed32 => v.Number? && 0 <= v.n < 0x1_0000_0000
    case Fixed64 => v.Number? && 0 <= v.n < 0x1_0000_0000_0000_0000
    case Bytes(capacity) => v.Octets? && |v.b| <= capacity
    case String(capacity) => v.Octets? && |v.b| < capacity && 0 !in v.b
    case FixedBytes(size) => v.Octets? && |v.b| == size
    case Message(fields) => v.Struct? && Shaped(fields, v.slots)
  }

  /** How many values there may be; a fixed array has all of its entries, or was not received at all. */
  predicate CountOk(ht: HType, n: nat, whole: bool) {
    match ht
    case Required => n == 1
    case Optional => n <= 1
    case Singular => n == 1
    case Repeated(max) => n <= max
    case FixedArray(max) => if whole then n == max || n == 0 else n <= max
    case Oneof(_) => n <= 1
  }

  predicate ShapedSlot(f: Field, slot: seq<Value>, whole: bool)
    decreases f
  {
    CountOk(f.htype, |slot|, whole) && forall k :: 0 <= k < |slot| ==> ShapedValue(f.ltype, slot[k])
  }

  predicate OneOfEach(fields: seq<Field>, m: seq<seq<Value>>)
    requires |m| == |fields|
  {
    forall i, j :: 0 <= i < j < |fields| && fields[i].htype.Oneof? && fields[i].htype == fields[j].htype ==>
      m[i] == [] || m[j] == []
  }

  /** Every slot has its shape, and of the members of a union at most one is set. */
  predicate Shaped(fields: seq<Field>, m: seq<seq<Value>>)
    decreases fields
  {
    && |m| == |fields| && OneOfEach(fields, m)
    && forall i :: 0 <= i < |fields| ==> ShapedSlot(fields[i], m[i], true)
  }

  /** The same while the fixed array in partial is being received. */
  predicate ShapedBut(fields: seq<Field>, m: seq<seq<Value>>, partial: Option<nat>) {
    && |m| == |fields| && OneOfEach(fields, m)
    && forall i: nat :: i < |fields| ==> ShapedSlot(fields[i], m[i], partial != Some(i))
  }

  // ---- the defaults ----

  lemma {:induction false} DefaultIsShaped(lt: LType)
    requires WellTyped(lt)
    ensures ShapedValue(lt, DefaultValue(lt))
    decreases lt
  {
    match lt
    case Message(fields) => DefaultsAreShaped(fields);
    case _ =>
  }

  lemma {:induction false} DefaultsAreShaped(fields: seq<Field>)
    requires WellFormed(fields)
    ensures Shaped(fields, Defaults(fields))
    decreases fields
  {
    forall i | 0 <= i < |fields|
      ensures ShapedSlot(fields[i], DefaultSlot(fields[i]), true)
    {
      DefaultSlotIsShaped(fields[i]);
    }
  }

  lemma {:induction false} DefaultSlotIsShaped(f: Field)
    requires WellFormedField(f)
    ensures ShapedSlot(f, DefaultSlot(f), true)
    decreases f
  {
    DefaultIsShaped(f.ltype);
  }

  // ---- values ----

  lemma SignedRange(v: int, w: nat)
    ensures 0 <= 2 * Signed(v, w) + Pow2(8 * w) < 2 * Pow2(8 * w)
  {
    hide Pow2;
  }

  lemma {:induction false} LittleEndianRange(s: seq<byte>)
    ensures FromLittleEndian(s) < Pow2(8 * |s|)
  {
    if s != [] {
      LittleEndianRange(s[1..]);
      Pow2Is();
      hide Pow2;
      Pow2Add(8 * (|s| - 1), 8);
    }
  }

  lemma NumberIsShaped(lt: LType, s: seq<byte>)
    requires Packable(lt) && DecodeNumber(lt, s).Some?
    ensures ShapedValue(lt, DecodeNumber(lt, s).value.value)
  {
    hide DecodeVarint, DecodeVarint32, Pow2, Signed, Unsigned, FromLittleEndian;
    match lt
    case Boolean =>
    case Varint(w) => SignedRange(Signed(DecodeVarint(s).value.value, if w == 8 then 8 else 4), w);
    case UVarint(w) =>
    case SVarint(w) => SignedRange(UnZigZag(DecodeVarint(s).value.value), w);
    case Fixed32 =>
      LittleEndianRange(s[..4]);
      Pow2Is();
    case Fixed64 =>
      LittleEndianRange(s[..8]);
      Pow2Is();
  }

  lemma {:induction false} UpToZeroIs(b: seq<byte>)
    ensures |UpToZero(b)| <= |b| && 0 !in UpToZero(b)
  {
    if b != [] && b[0] != 0 {
      UpToZeroIs(b[1..]);
    }
  }

  lemma OctetsAreShaped(lt: LType, s: seq<byte>)
    requires (lt.Bytes? || lt.String? || lt.FixedBytes?) && DecodeOctets(lt, s).Some?
    ensures ShapedValue(lt, DecodeOctets(lt, s).value.value)
  {
    hide DecodeVarint32;
    var n := DecodeVarint32(s).value;
    if lt.String? {
      UpToZeroIs(n.rest[..n.value]);
    }
  }

  lemma {:induction false} ValueIsShaped(lt: LType, initialise: bool, prior: Value, s: seq<byte>)
    requires WellTyped(lt) && ShapedValue(lt, prior) && DecodeValue(lt, initialise, prior, s).Some?
    ensures ShapedValue(lt, DecodeValue(lt, initialise, prior, s).value.value)
    decreases lt, 0, 0
  {
    hide DecodePrefixed, DecodeNumber, DecodeOctets, DecodeFields;
    if Packable(lt) {
      NumberIsShaped(lt, s);
    } else if !lt.Message? {
      OctetsAreShaped(lt, s);
    } else {
      var p := DecodePrefixed(s).value;
      DefaultsAreShaped(lt.fields);
      FieldsAreShaped(lt.fields, Start(lt.fields, initialise, prior), p.value);
    }
  }

  // ---- fields ----

  lemma {:induction false} PackedAreShaped(lt: LType, max: nat, slot: seq<Value>, s: seq<byte>)
    requires Packable(lt) && |slot| <= max && DecodePacked(lt, max, slot, s).Some?
    requires forall k :: 0 <= k < |slot| ==> ShapedValue(lt, slot[k])
    ensures var r := DecodePacked(lt, max, slot, s).value;
            |r| <= max && forall k :: 0 <= k < |r| ==> ShapedValue(lt, r[k])
    decreases |s|
  {
    hide DecodeNumber, ShapedValue;
    if s != [] {
      NumberIsShaped(lt, s);
      var p := DecodeNumber(lt, s).value;
      PackedAreShaped(lt, max, slot + [p.value], p.rest);
    }
  }

  /** A record changes its own field only, except that setting a member of a union unsets the others. */
  lemma FieldIsIsolated(fields: seq<Field>, i: nat, m: seq<seq<Value>>, wireType: nat, s: seq<byte>, j: nat)
    requires i < |fields| == |m| && j < |fields| && j != i && DecodeField(fields, i, m, wireType, s).Some?
    ensures var r := DecodeField(fields, i, m, wireType, s).value.value;
            r[j] == if fields[i].htype.Oneof? && fields[j].htype == fields[i].htype then [] else m[j]
  {
    hide DecodeValue, DecodePacked, DecodePrefixed;
  }

  /** What a record leaves in its own field. */
  lemma {:induction false} OwnSlotIsShaped(fields: seq<Field>, i: nat, m: seq<seq<Value>>, wireType: nat, s: seq<byte>)
    requires WellFormed(fields) && i < |fields| == |m| && ShapedSlot(fields[i], m[i], false)
    requires DecodeField(fields, i, m, wireType, s).Some?
    ensures ShapedSlot(fields[i], DecodeField(fields, i, m, wireType, s).value.value[i], false)
    decreases fields, 0, 0
  {
    hide DecodeValue, DecodePacked, DecodePrefixed, WellFormed, ShapedValue;
    var f := fields[i];
    assert WellFormedField(f) by {
      TagOk(fields, i);
    }
    if !IsArray(f.htype) {
      OneIsShaped(f, false, OldValue(f, m[i]), s);
    } else if wireType == WT_STRING && Packable(f.ltype) {
      PackedAreShaped(f.ltype, f.htype.max, m[i], DecodePrefixed(s).value.value);
    } else {
      OneIsShaped(f, true, DefaultValue(f.ltype), s);
    }
  }

  lemma {:induction false} OneIsShaped(f: Field, initialise: bool, prior: Value, s: seq<byte>)
    requires WellFormedField(f) && DecodeValue(f.ltype, initialise, prior, s).Some?
    requires prior == DefaultValue(f.ltype) || ShapedValue(f.ltype, prior)
    ensures ShapedValue(f.ltype, DecodeValue(f.ltype, initialise, prior, s).value.value)
    decreases f
  {
    DefaultIsShaped(f.ltype);
    ValueIsShaped(f.ltype, initialise, prior, s);
  }

  lemma {:induction false} FieldIsShaped(fields: seq<Field>, st: Progress, i: nat, wireType: nat, s: seq<byte>)
    requires WellFormed(fields) && i < |fields| && ShapedBut(fields, st.m, st.partial)
    requires fields[i].htype.FixedArray? ==> st.partial == Some(i)
    requires DecodeField(fields, i, st.m, wireType, s).Some?
    ensures ShapedBut(fields, DecodeField(fields, i, st.m, wireType, s).value.value, st.partial)
    decreases fields, 0, 1
  {
    hide DecodeField, WellFormed, ShapedValue;
    var r := DecodeField(fields, i, st.m, wireType, s).value.value;
    OwnSlotIsShaped(fields, i, st.m, wireType, s);
    forall j | 0 <= j < |fields| && j != i
      ensures r[j] == if fields[i].htype.Oneof? && fields[j].htype == fields[i].htype then [] else st.m[j]
    {
      FieldIsIsolated(fields, i, st.m, wireType, s, j);
    }
  }

  lemma EnteredIsShaped(fields: seq<Field>, i: nat, st: Progress)
    requires ProgressOk(fields, st) && i < |fields| && ShapedBut(fields, st.m, st.partial)
    requires EnterField(fields, i, st).Some?
    ensures var e := EnterField(fields, i, st).value;
            ShapedBut(fields, e.m, e.partial) && (fields[i].htype.FixedArray? ==> e.partial == Some(i))
  {
    hide ShapedValue;
  }

  // ---- messages ----

  lemma {:induction false} LoopIsShaped(fields: seq<Field>, st: Progress, s: seq<byte>)
    requires WellFormed(fields) && ProgressOk(fields, st) && ShapedBut(fields, st.m, st.partial)
    requires DecodeLoop(fields, st, s).Some?
    ensures var r := DecodeLoop(fields, st, s).value; ShapedBut(fields, r.m, r.partial)
    decreases fields, 1, |s|
  {
    hide DecodeTag, DecodeField, EnterField, PassUnknown, Has, IndexOf, WellFormed, ShapedBut;
    if s != [] {
      var t := DecodeTag(s);
      if t.Tag? {
        if Has(fields, t.tag) {
          var i := IndexOf(fields, t.tag);
          EnteredIsShaped(fields, i, st);
          var entered := EnterField(fields, i, st).value;
          FieldIsShaped(fields, entered, i, t.wireType, t.rest);
          var p := DecodeField(fields, i, entered.m, t.wireType, t.rest).value;
          LoopIsShaped(fields, entered.(m := p.value), p.rest);
        } else {
          PassedIsShaped(fields, t.tag, st);
          LoopIsShaped(fields, PassedOver(fields, t.tag, st), PassUnknown(fields, t.tag, t.wireType, t.rest).value);
        }
      }
    }
  }

  lemma PassedIsShaped(fields: seq<Field>, tag: nat, st: Progress)
    requires ShapedBut(fields, st.m, st.partial)
    ensures ShapedBut(fields, PassedOver(fields, tag, st).m, PassedOver(fields, tag, st).partial)
  {
  }

  lemma {:induction false} FieldsAreShaped(fields: seq<Field>, m: seq<seq<Value>>, s: seq<byte>)
    requires WellFormed(fields) && Shaped(fields, m) && DecodeFields(fields, m, s).Some?
    ensures Shaped(fields, DecodeFields(fields, m, s).value)
    decreases fields, 2, |s|
  {
    hide DecodeLoop, WellFormed, AllRequiredSeen, ShapedValue;
    LoopIsShaped(fields, Progress(m, {}, None), s);
  }

  /** Whatever the bytes: if pb_decode succeeds, the struct has the shape its descriptor gives it. */
  lemma DecodedIsShaped(fields: seq<Field>, s: seq<byte>)
    requires WellFormed(fields) && Decode(fields, s).Some?
    ensures Shaped(fields, Decode(fields, s).value)
  {
    DefaultsAreShaped(fields);
    FieldsAreShaped(fields, Defaults(fields), s);
  }

  // ---- exactly which structs come back ----

  lemma {:induction false} ShapedIsTerminatedValue(lt: LType, v: Value)
    requires TypedValue(lt, v) && ShapedValue(lt, v)
    ensures TerminatedValue(lt, v)
    decreases lt
  {
    match lt
    case Message(fields) => ShapedIsTerminated(fields, v.slots);
    case _ =>
  }

  lemma {:induction false} ShapedIsTerminated(fields: seq<Field>, m: seq<seq<Value>>)
    requires Typed(fields, m) && Shaped(fields, m)
    ensures Terminated(fields, m)
    decreases fields
  {
    forall i | 0 <= i < |fields|
      ensures TerminatedSlot(fields[i], m[i])
    {
      ShapedIsTerminatedSlot(fields[i], m[i]);
    }
  }

  lemma {:induction false} ShapedIsTerminatedSlot(f: Field, slot: seq<Value>)
    requires TypedSlot(f, slot) && ShapedSlot(f, slot, true)
    ensures TerminatedSlot(f, slot)
    decreases f
  {
    forall k | 0 <= k < |slot|
      ensures TerminatedValue(f.ltype, slot[k])
    {
      ShapedIsTerminatedValue(f.ltype, slot[k]);
    }
  }

  /** Of the structs the encoder accepts, exactly those come back whose strings all leave room for their terminators. */
  lemma RoundTripIff(fields: seq<Field>, m: seq<seq<Value>>)
    requires WellFormed(fields) && Typed(fields, m) && Encodable(fields, m) && |Encode(fields, m)| < TWO32
    ensures Decode(fields, Encode(fields, m)) == Some(m) <==> Terminated(fields, m)
  {
    if Terminated(fields, m) {
      MessageRoundTrip(fields, m);
    } else if Decode(fields, Encode(fields, m)) == Some(m) {
      DecodedIsShaped(fields, Encode(fields, m));
      ShapedIsTerminated(fields, m);
    }
  }

  // ---- what was received can be sent on ----

  /** Every fixed array, nested ones too, has all of its entries. */
  predicate WholeValue(lt: LType, v: Value)
    decreases lt
  {
    lt.Message? && v.Struct? && |v.slots| == |lt.fields| ==> Whole(lt.fields, v.slots)
  }

  predicate Whole(fields: seq<Field>, m: seq<seq<Value>>)
    requires |m| == |fields|
    decreases fields
  {
    forall i :: 0 <= i < |fields| ==> WholeSlot(fields[i], m[i])
  }

  predicate WholeSlot(f: Field, slot: seq<Value>)
    decreases f
  {
    (f.htype.FixedArray? ==> |slot| == f.htype.max) && forall k :: 0 <= k < |slot| ==> WholeValue(f.ltype, slot[k])
  }

  lemma {:induction false} WholeIsStorableValue(lt: LType, v: Value)
    requires WellTyped(lt) && ShapedValue(lt, v) && WholeValue(lt, v)
    ensures StorableValue(lt, v)
    decreases lt
  {
    match lt
    case Message(fields) => WholeIsStorable(fields, v.slots);
    case UVarint(w) => UnsignedFits(w);
    case Varint(w) => hide Pow2;
    case SVarint(w) => hide Pow2;
    case _ =>
  }

  lemma UnsignedFits(w: nat)
    requires w <= 8
    ensures Pow2(8 * w) <= TWO64
  {
    hide Pow2;
    Pow2Is();
    Pow2Monotone(8 * w, 64);
  }

  lemma {:induction false} WholeIsStorable(fields: seq<Field>, m: seq<seq<Value>>)
    requires WellFormed(fields) && Shaped(fields, m) && Whole(fields, m)
    ensures Storable(fields, m)
    decreases fields
  {
    hide ShapedSlot, WholeSlot, EncodableSlot, TerminatedSlot, TypedSlot;
    forall i | 0 <= i < |fields|
      ensures TypedSlot(fields[i], m[i]) && EncodableSlot(fields[i], m[i]) && TerminatedSlot(fields[i], m[i])
    {
      assert WellFormedField(fields[i]);
      WholeIsStorableSlot(fields[i], m[i]);
    }
  }

  lemma {:induction false} WholeIsStorableSlot(f: Field, slot: seq<Value>)
    requires WellTyped(f.ltype) && ShapedSlot(f, slot, true) && WholeSlot(f, slot)
    ensures TypedSlot(f, slot) && EncodableSlot(f, slot) && TerminatedSlot(f, slot)
    decreases f
  {
    hide TypedValue, EncodableValue, TerminatedValue, ShapedValue, WholeValue, WellTyped;
    forall k | 0 <= k < |slot|
      ensures StorableValue(f.ltype, slot[k])
    {
      WholeIsStorableValue(f.ltype, slot[k]);
    }
  }

  /** Whatever bytes pb_decode accepts, the encoder accepts the struct it makes of them, if that lacks no fixed array,
      and decoding what is sent on gives the same struct. */
  lemma ReceivedCanBeSent(fields: seq<Field>, s: seq<byte>)
    requires WellFormed(fields) && Decode(fields, s).Some?
    requires |Decode(fields, s).value| == |fields| && Whole(fields, Decode(fields, s).value)
    ensures var m := Decode(fields, s).value;
            && Typed(fields, m) && Encodable(fields, m)
            && (|Encode(fields, m)| < TWO32 ==> Decode(fields, Encode(fields, m)) == Some(m))
  {
    hide WellFormed, Shaped, Whole, Decode, Encode;
    var m := Decode(fields, s).value;
    DecodedIsShaped(fields, s);
    WholeIsStorable(fields, m);
    if |Encode(fields, m)| < TWO32 {
      MessageRoundTrip(fields, m);
    }
  }
}
