/** What pb_encode sends and what it leaves out. */
module Sending {
  import opened Basics
  import opened Wire
  import opened Messages
  import opened Varints
  import opened Encoders

  // ---- proto3 defaults are left out ----

  /** A default value of the type has no byte that must be sent: no fixed bytes, and inside a nested message no required
      field and no fixed array. */
  predicate Omittable(lt: LType)
    decreases lt, 0
  {
    match lt
    case FixedBytes(size) => size == 0
    case Message(fields) => AllOmittable(fields)
    case _ => true
  }

  predicate AllOmittable(fields: seq<Field>)
    decreases fields, 1
  {
    forall i :: 0 <= i < |fields| ==> OmittableField(fields[i])
  }

  predicate OmittableField(f: Field)
    decreases f
  {
    match f.htype
    case Required => false
    case FixedArray(_) => false
    case Singular => Omittable(f.ltype)
    case _ => true
  }

  lemma {:induction false} DefaultIsTyped(lt: LType)
    requires WellTyped(lt) && Omittable(lt)
    ensures TypedValue(lt, DefaultValue(lt)) && IsZero(lt, DefaultValue(lt))
    decreases lt
  {
    match lt
    case Message(fields) => DefaultsAreTyped(fields);
    case _ =>
  }

  lemma {:induction false} DefaultsAreTyped(fields: seq<Field>)
    requires WellFormed(fields) && AllOmittable(fields)
    ensures Typed(fields, Defaults(fields)) && AllDefault(fields, Defaults(fields))
    decreases fields
  {
    forall i | 0 <= i < |fields|
      ensures TypedSlot(fields[i], DefaultSlot(fields[i])) && IsDefault(fields[i], DefaultSlot(fields[i]))
      ensures fields[i].htype.Oneof? ==> DefaultSlot(fields[i]) == []
    {
      assert WellFormedField(fields[i]) && OmittableField(fields[i]);
      DefaultSlotIsTyped(fields[i]);
    }
  }

  lemma {:induction false} DefaultSlotIsTyped(f: Field)
    requires WellFormedField(f) && OmittableField(f)
    ensures TypedSlot(f, DefaultSlot(f)) && IsDefault(f, DefaultSlot(f))
    decreases f
  {
    if f.htype.Singular? {
      DefaultIsTyped(f.ltype);
    }
  }

  lemma {:induction false} ZeroIsOmittable(lt: LType, v: Value)
    requires TypedValue(lt, v) && IsZero(lt, v)
    ensures Omittable(lt)
    decreases lt
  {
    match lt
    case Message(fields) =>
      forall i | 0 <= i < |fields|
        ensures OmittableField(fields[i])
      {
        assert IsDefault(fields[i], v.slots[i]) && TypedSlot(fields[i], v.slots[i]);
        SlotIsOmittable(fields[i], v.slots[i]);
      }
    case _ =>
  }

  lemma {:induction false} SlotIsOmittable(f: Field, slot: seq<Value>)
    requires TypedSlot(f, slot) && IsDefault(f, slot)
    ensures OmittableField(f)
    decreases f
  {
    if f.htype.Singular? {
      ZeroIsOmittable(f.ltype, slot[0]);
    }
  }

  lemma TaggedIsSent(f: Field, vs: seq<Value>)
    requires |vs| == 1 && TypedValue(f.ltype, vs[0])
    ensures EncodeTagged(f, vs) != []
  {
    hide TypedValue, EncodeValue;
  }

  /** A field without presence is left out exactly if it has its type's default, and that can be left out at all. */
  lemma SingularLeftOutIff(f: Field, v: Value)
    requires f.htype.Singular? && WellTyped(f.ltype) && TypedValue(f.ltype, v)
    ensures EncodeSlot(f, [v]) == [] <==> v == DefaultValue(f.ltype) && Omittable(f.ltype)
  {
    hide TypedValue, EncodeTagged, Omittable, DefaultValue;
    if IsZero(f.ltype, v) {
      ZeroIsDefault(f.ltype, v);
      ZeroIsOmittable(f.ltype, v);
    } else {
      TaggedIsSent(f, [v]);
      if Omittable(f.ltype) {
        DefaultIsTyped(f.ltype);
      }
    }
  }

  /** A default message takes no bytes. */
  lemma {:induction false} DefaultsSendNothing(fields: seq<Field>)
    requires WellFormed(fields) && AllOmittable(fields)
    ensures Typed(fields, Defaults(fields)) && Encodable(fields, Defaults(fields))
    ensures Encode(fields, Defaults(fields)) == []
  {
    hide TypedSlot, EncodeSlot;
    DefaultsAreTyped(fields);
    DefaultsAreEncodable(fields, Defaults(fields));
    forall i | 0 <= i < |fields|
      ensures EncodeSlot(fields[i], Defaults(fields)[i]) == []
    {
      assert WellFormedField(fields[i]) && OmittableField(fields[i]);
      DefaultSlotSendsNothing(fields[i]);
    }
    NothingFrom(fields, Defaults(fields), 0);
    assert fields[0..] == fields && Defaults(fields)[0..] == Defaults(fields);
  }

  lemma DefaultSlotSendsNothing(f: Field)
    requires WellFormedField(f) && OmittableField(f)
    ensures TypedSlot(f, DefaultSlot(f)) && EncodeSlot(f, DefaultSlot(f)) == []
  {
    DefaultSlotIsTyped(f);
  }

  lemma {:induction false} NothingFrom(fields: seq<Field>, m: seq<seq<Value>>, i: nat)
    requires Typed(fields, m) && i <= |fields|
    requires forall k :: 0 <= k < |fields| ==> EncodeSlot(fields[k], m[k]) == []
    ensures EncodeSlots(fields[i..], m[i..]) == []
    decreases |fields| - i
  {
    hide TypedSlot, EncodeSlot;
    if i < |fields| {
      SlotsNext(fields, m, i);
      NothingFrom(fields, m, i + 1);
    }
  }

  /** So it goes into any stream, even one that is full, and leaves it as it is. */
  lemma DefaultsNeedNoRoom(fields: seq<Field>, s0: Sink, status: Status, s1: Sink)
    requires WellFormed(fields) && AllOmittable(fields) && Typed(fields, Defaults(fields)) && Within(s0)
    requires Outcome(s0, Encode(fields, Defaults(fields)), Encodable(fields, Defaults(fields)), status, s1)
    ensures status.Done? && s1 == s0
  {
    hide Encode, Typed;
    DefaultsSendNothing(fields);
    assert s0.output + [] == s0.output;
  }

  // ---- what is present is sent ----

  /** Every other field that is set is sent with its own tag in front, whatever its value. */
  lemma PresentIsSent(f: Field, slot: seq<Value>)
    requires TypedSlot(f, slot) && slot != [] && !f.htype.Singular? && !(IsArray(f.htype) && Packable(f.ltype))
    ensures EncodeTag(f.tag, WireTypeOf(f.ltype)) + EncodeValue(f.ltype, slot[0]) <= EncodeSlot(f, slot)
  {
    hide TypedValue, EncodeValue, EncodeTag;
  }

  /** An array of numbers is sent as one record of wire type 2. */
  lemma ArrayIsPacked(f: Field, slot: seq<Value>)
    requires TypedSlot(f, slot) && slot != [] && (f.htype.Repeated? || f.htype.FixedArray?)
    requires !(f.ltype.Bytes? || f.ltype.String? || f.ltype.FixedBytes? || f.ltype.Message?)
    ensures var body := EncodePacked(f.ltype, slot);
            EncodeSlot(f, slot) == EncodeVarint(f.tag * 8 + 2) + EncodeVarint(|body|) + body
  {
    hide TypedValue, EncodePacked, EncodeVarint;
    var body := EncodePacked(f.ltype, slot);
    Regroup(EncodeVarint(f.tag * 8 + 2), EncodeVarint(|body|), body);
  }

  // ---- the bytes of a value ----

  /** A negative integer is sent with its sign extended to 64 bits, which takes ten bytes at every width. */
  lemma NegativeTakesTen(w: nat, v: int)
    requires TypedValue(Varint(w), Number(v)) && v < 0
    ensures Varints.Digits(EncodeValue(Varint(w), Number(v))) == v + TWO64 && |EncodeValue(Varint(w), Number(v))| == 10
  {
    hide EncodeVarint, Varints.Digits, Pow2;
    Pow2Is();
    Narrow(v, w);
    NegativeMod(v, TWO64);
    VarintIs(v + TWO64);
    Pow2Add(63, 1);
    Pow2Add(63, 7);
    Pow2One();
    VarintLength(v + TWO64, 10);
    VarintLonger(v + TWO64, 9);
  }

  lemma Pow2One()
    ensures Pow2(1) == 2
  {
  }
}
