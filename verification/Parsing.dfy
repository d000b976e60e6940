/** What pb_decode makes of any byte string, and that it inverts the encoding. */
module Parsing {
  import opened Basics
  import opened Wire
  import opened Messages

  /** PB_MAX_REQUIRED_FIELDS: required fields beyond it are not checked for. */
  const MAX_REQUIRED: nat := 64

  // ---- single values ----

  function Take(s: seq<byte>, n: nat): (r: Option<Parsed<seq<byte>>>)
    ensures r.Some? ==> |r.value.value| == n && r.value.value + r.value.rest == s
  {
    if |s| < n then None else Some(Parsed(s[..n], s[n..]))
  }

  /** A length and that many bytes: a string, or the substream of a message or a packed array. */
  function DecodePrefixed(s: seq<byte>): (r: Option<Parsed<seq<byte>>>)
    ensures r.Some? ==> |r.value.value| + |r.value.rest| < |s|
  {
    match DecodeVarint32(s)
    case None => None
    case Some(p) => Take(p.rest, p.value)
  }

  /** What a reader of the terminated string sees. */
  function UpToZero(b: seq<byte>): seq<byte> {
    if b == [] || b[0] == 0 then [] else [b[0]] + UpToZero(b[1..])
  }

  /** The value as stored in the given width, unless storing it loses bits. */
  function Store(v: int, stored: int): Option<Value> {
    if stored == v then Some(Number(v)) else None
  }

  function WithRest(v: Option<Value>, rest: seq<byte>): Option<Parsed<Value>> {
    if v.None? then None else Some(Parsed(v.value, rest))
  }

  function DecodeNumber(lt: LType, s: seq<byte>): (r: Option<Parsed<Value>>)
    requires Packable(lt)
    ensures r.Some? ==> |r.value.rest| < |s|
  {
    match lt
    case Boolean =>
      (match DecodeVarint32(s)
       case None => None
       case Some(p) => Some(Parsed(Number(if p.value != 0 then 1 else 0), p.rest)))
    case Varint(w) =>
      (match DecodeVarint(s)
       case None => None
       case Some(p) =>
         var v := Signed(p.value, if w == 8 then 8 else 4);
         WithRest(Store(v, Signed(v, w)), p.rest))
    case UVarint(w) =>
      (match DecodeVarint(s)
       case None => None
       case Some(p) => WithRest(Store(p.value, Unsigned(p.value, w)), p.rest))
    case SVarint(w) =>
      (match DecodeVarint(s)
       case None => None
       case Some(p) =>
         var v := UnZigZag(p.value);
         WithRest(Store(v, Signed(v, w)), p.rest))
    case Fixed32 =>
      (match Take(s, 4)
       case None => None
       case Some(p) => Some(Parsed(Number(FromLittleEndian(p.value)), p.rest)))
    case Fixed64 =>
      (match Take(s, 8)
       case None => None
       case Some(p) => Some(Parsed(Number(FromLittleEndian(p.value)), p.rest)))
  }

  function DecodeOctets(lt: LType, s: seq<byte>): (r: Option<Parsed<Value>>)
    requires lt.Bytes? || lt.String? || lt.FixedBytes?
    ensures r.Some? ==> |r.value.rest| < |s|
  {
    match DecodeVarint32(s)
    case None => None
    case Some(n) =>
      if lt.FixedBytes? && n.value == 0 then Some(Parsed(DefaultValue(lt), n.rest))
      else if (lt.Bytes? && n.value > lt.capacity) || (lt.String? && n.value + 1 > lt.capacity)
              || (lt.FixedBytes? && n.value != lt.size) then None
      else
        match Take(n.rest, n.value)
        case None => None
        case Some(p) => Some(Parsed(Octets(if lt.String? then UpToZero(p.value) else p.value), p.rest))
  }

  /** Where the decoding of a nested message starts: a new array entry from the defaults, any other from what is there.
      What is there always has the shape its descriptor gives it. */
  function Start(fields: seq<Field>, initialise: bool, prior: Value): (m: seq<seq<Value>>)
    ensures |m| == |fields|
  {
    if initialise || !prior.Struct? || |prior.slots| != |fields| then Defaults(fields) else prior.slots
  }

  function DecodeValue(lt: LType, initialise: bool, prior: Value, s: seq<byte>): (r: Option<Parsed<Value>>)
    ensures r.Some? ==> |r.value.rest| < |s|
    decreases |s|, 0
  {
    if Packable(lt) then DecodeNumber(lt, s)
    else if !lt.Message? then DecodeOctets(lt, s)
    else
      match DecodePrefixed(s)
      case None => None
      case Some(p) =>
        match DecodeFields(lt.fields, Start(lt.fields, initialise, prior), p.value)
        case None => None
        case Some(m) => Some(Parsed(Struct(m), p.rest))
  }

  // ---- fields ----

  /** The values of a packed array, until the substream or the room is used up. */
  function DecodePacked(lt: LType, max: nat, slot: seq<Value>, s: seq<byte>): Option<seq<Value>>
    requires Packable(lt)
    decreases |s|
  {
    if s == [] then Some(slot)
    else if |slot| >= max then None
    else
      match DecodeNumber(lt, s)
      case None => None
      case Some(p) => DecodePacked(lt, max, slot + [p.value], p.rest)
  }

  /** Setting a member of a union unsets the others. */
  function ClearUnion(fields: seq<Field>, i: nat, m: seq<seq<Value>>): (r: seq<seq<Value>>)
    requires i < |fields| == |m|
    ensures |r| == |m|
  {
    seq(|m|, j requires 0 <= j < |m| =>
      if j != i && SameUnion(fields[i].htype, fields[j].htype) then [] else m[j])
  }

  function OldValue(f: Field, slot: seq<Value>): Value {
    if slot == [] || f.htype.Oneof? then DefaultValue(f.ltype) else slot[0]
  }

  /** decode_static_field. */
  function DecodeField(fields: seq<Field>, i: nat, m: seq<seq<Value>>, wireType: nat, s: seq<byte>)
    : (r: Option<Parsed<seq<seq<Value>>>>)
    requires i < |fields| == |m|
    ensures r.Some? ==> |r.value.value| == |m| && |r.value.rest| < |s|
    decreases |s|, 1
  {
    var f := fields[i];
    if IsArray(f.htype) then
      if wireType == WT_STRING && Packable(f.ltype) then
        match DecodePrefixed(s)
        case None => None
        case Some(p) =>
          match DecodePacked(f.ltype, f.htype.max, m[i], p.value)
          case None => None
          case Some(slot) => Some(Parsed(m[i := slot], p.rest))
      else if |m[i]| >= f.htype.max then None
      else
        match DecodeValue(f.ltype, true, DefaultValue(f.ltype), s)
        case None => None
        case Some(p) => Some(Parsed(m[i := m[i] + [p.value]], p.rest))
    else
      match DecodeValue(f.ltype, false, OldValue(f, m[i]), s)
      case None => None
      case Some(p) => Some(Parsed(ClearUnion(fields, i, m)[i := [p.value]], p.rest))
  }

  function SkipVarint(s: seq<byte>): (r: Option<seq<byte>>)
    ensures r.Some? ==> |r.value| < |s|
    decreases |s|
  {
    if s == [] then None else if s[0] < 128 then Some(s[1..]) else SkipVarint(s[1..])
  }

  function RestOf(r: Option<Parsed<seq<byte>>>): Option<seq<byte>> {
    if r.None? then None else Some(r.value.rest)
  }

  /** pb_skip_field. */
  function SkipField(wireType: nat, s: seq<byte>): (r: Option<seq<byte>>)
    ensures r.Some? ==> |r.value| <= |s|
  {
    if wireType == WT_VARINT then SkipVarint(s)
    else if wireType == WT_64BIT then RestOf(Take(s, 8))
    else if wireType == WT_STRING then RestOf(DecodePrefixed(s))
    else if wireType == WT_32BIT then RestOf(Take(s, 4))
    else None
  }

  // ---- messages ----

  predicate Has(fields: seq<Field>, tag: nat) {
    exists i :: 0 <= i < |fields| && fields[i].tag == tag
  }

  /** The field with this tag. */
  function IndexOf(fields: seq<Field>, tag: nat): (i: nat)
    requires Has(fields, tag)
    ensures i < |fields| && fields[i].tag == tag
  {
    if fields[0].tag == tag then 0
    else
      assert forall i :: 0 < i < |fields| ==> fields[1..][i - 1] == fields[i];
      IndexOf(fields[1..], tag) + 1
  }

  function RequiredBefore(fields: seq<Field>, i: nat): nat
    requires i <= |fields|
  {
    if i == 0 then 0 else RequiredBefore(fields, i - 1) + if fields[i - 1].htype.Required? then 1 else 0
  }

  /** seen holds the required fields met, by their number among the required fields; partial is the fixed array being
      received. */
  datatype Progress = Progress(m: seq<seq<Value>>, seen: set<nat>, partial: Option<nat>)

  predicate ProgressOk(fields: seq<Field>, st: Progress) {
    && |st.m| == |fields|
    && (st.partial.Some? ==> st.partial.value < |fields| && fields[st.partial.value].htype.FixedArray?)
  }

  /** The fixed array received last has all of its entries. */
  predicate FixedComplete(fields: seq<Field>, st: Progress)
    requires ProgressOk(fields, st)
  {
    st.partial.Some? ==> |st.m[st.partial.value]| == fields[st.partial.value].htype.max
  }

  /** Turning to another fixed array starts it anew, and is an error if the last one is incomplete. */
  function EnterField(fields: seq<Field>, i: nat, st: Progress): (r: Option<Progress>)
    requires ProgressOk(fields, st) && i < |fields|
    ensures r.Some? ==> ProgressOk(fields, r.value)
  {
    var f := fields[i];
    if f.htype.FixedArray? && st.partial != Some(i) then
      if FixedComplete(fields, st) then Some(st.(m := st.m[i := []], partial := Some(i))) else None
    else if f.htype.Required? && RequiredBefore(fields, i) < MAX_REQUIRED then
      Some(st.(seen := st.seen + {RequiredBefore(fields, i)}))
    else Some(st)
  }

  /** The search for a tag stops at the terminator of an empty descriptor, whose tag is 0. */
  predicate AtTerminator(fields: seq<Field>, tag: nat) {
    fields == [] && tag == 0
  }

  /** What is left behind a record that belongs to no field: the terminator reads as a boolean field, whatever the wire
      type; otherwise the record is skipped by its wire type. */
  function PassUnknown(fields: seq<Field>, tag: nat, wireType: nat, s: seq<byte>): (r: Option<seq<byte>>)
    ensures r.Some? ==> |r.value| <= |s|
  {
    if AtTerminator(fields, tag) then
      var n := DecodeVarint32(s);
      if n.None? then None else Some(n.value.rest)
    else SkipField(wireType, s)
  }

  /** The terminator counts as a required field, too. */
  function PassedOver(fields: seq<Field>, tag: nat, st: Progress): Progress {
    if AtTerminator(fields, tag) then st.(seen := st.seen + {0}) else st
  }

  /** The loop of pb_decode_noinit. */
  function DecodeLoop(fields: seq<Field>, st: Progress, s: seq<byte>): (r: Option<Progress>)
    requires ProgressOk(fields, st)
    ensures r.Some? ==> ProgressOk(fields, r.value)
    decreases |s|, 2
  {
    if s == [] then Some(st)
    else
      match DecodeTag(s)
      case EndOfMessage(_) => Some(st)
      case BadTag => None
      case Tag(tag, wireType, rest) =>
        if Has(fields, tag) then
          var i := IndexOf(fields, tag);
          match EnterField(fields, i, st)
          case None => None
          case Some(entered) =>
            match DecodeField(fields, i, entered.m, wireType, rest)
            case None => None
            case Some(p) => DecodeLoop(fields, entered.(m := p.value), p.rest)
        else
          match PassUnknown(fields, tag, wireType, rest)
          case None => None
          case Some(more) => DecodeLoop(fields, PassedOver(fields, tag, st), more)
  }

  predicate AllRequiredSeen(fields: seq<Field>, seen: set<nat>) {
    forall k: nat :: k < RequiredBefore(fields, |fields|) && k < MAX_REQUIRED ==> k in seen
  }

  /** pb_decode_noinit: the loop and its final checks. */
  function DecodeFields(fields: seq<Field>, m: seq<seq<Value>>, s: seq<byte>): (r: Option<seq<seq<Value>>>)
    requires |m| == |fields|
    ensures r.Some? ==> |r.value| == |fields|
    decreases |s|, 3
  {
    match DecodeLoop(fields, Progress(m, {}, None), s)
    case None => None
    case Some(st) => if FixedComplete(fields, st) && AllRequiredSeen(fields, st.seen) then Some(st.m) else None
  }

  /** pb_decode. */
  function Decode(fields: seq<Field>, s: seq<byte>): Option<seq<seq<Value>>> {
    DecodeFields(fields, Defaults(fields), s)
  }

  // ---- records of unknown fields ----

  /** Every record with this tag, which is no field's, is skipped by its wire type, if and only if the descriptor has a
      field or the tag is not 0. (Tag 0 with wire type 0 ends a message.) */
  lemma UnknownIsSkippedIff(fields: seq<Field>, tag: nat)
    requires !Has(fields, tag)
    ensures (forall wireType: nat, s :: wireType < 8 && tag * 8 + wireType > 0 ==>
               PassUnknown(fields, tag, wireType, s) == SkipField(wireType, s))
            <==> fields != [] || tag != 0
  {
    if AtTerminator(fields, tag) {
      TerminatorTakesRecord();
      assert PassUnknown(fields, tag, 2, [5]) != SkipField(2, [5]);
    }
  }

  /** A record that announces five bytes and has none: an empty descriptor takes it. */
  lemma TerminatorTakesRecord()
    ensures SkipField(2, [5]) == None && PassUnknown([], 0, 2, [5]) == Some([])
    ensures Decode([], [2, 5]) == Some([])
  {
    hide DecodeVarint32, Pow2;
    Varint32RoundTrip(5, []);
    Varint32RoundTrip(2, [5]);
    assert EncodeVarint(5) == [5] && EncodeVarint(2) == [2] && [2] + [5] == [2, 5] && [5] + [] == [5];
    assert DecodeTag([2, 5]) == Tag(0, 2, [5]);
    var st := Progress([], {}, None);
    assert !Has([], 0) && Defaults([]) == [];
    assert DecodeLoop([], st, [2, 5]) == DecodeLoop([], PassedOver([], 0, st), []);
  }

  // ---- the decoder inverts the encoder: values ----

  lemma PrefixedRoundTrip(b: seq<byte>, rest: seq<byte>)
    requires |b| < TWO32
    ensures DecodePrefixed(Prefixed(b) + rest) == Some(Parsed(b, rest))
  {
    Varint32RoundTrip(|b|, b + rest);
    assert Prefixed(b) + rest == EncodeVarint(|b|) + (b + rest);
    assert (b + rest)[..|b|] == b && (b + rest)[|b|..] == rest;
  }

  lemma VarintValueRoundTrip(v: int, w: nat, rest: seq<byte>)
    requires w in {1, 2, 4, 8} && InSigned(v, w)
    ensures DecodeNumber(Varint(w), EncodeVarint(Unsigned(v, 8)) + rest) == Some(Parsed(Number(v), rest))
  {
    hide Pow2, DecodeVarint, EncodeVarint;
    Pow2Is();
    var wide := if w == 8 then 8 else 4;
    Pow2Monotone(8 * w, 8 * wide);
    Pow2Monotone(8 * wide, 64);
    VarintRoundTrip(Unsigned(v, 8), rest);
    Narrow(v, wide);
    SignedRoundTrip(v, wide);
    SignedRoundTrip(v, w);
    assert Signed(Unsigned(v, 8), wide) == Signed(Unsigned(v, wide), wide) by {
      SmallMod(Unsigned(v, wide), Pow2(8 * wide));
    }
  }

  lemma NumberRoundTrip(lt: LType, v: Value, rest: seq<byte>)
    requires Packable(lt) && WellTyped(lt) && TypedValue(lt, v)
    ensures DecodeNumber(lt, EncodeValue(lt, v) + rest) == Some(Parsed(v, rest))
  {
    hide Pow2, DecodeVarint, DecodeVarint32, EncodeVarint, LittleEndian, FromLittleEndian;
    Pow2Is();
    match lt
    case Boolean => Varint32RoundTrip(v.n, rest);
    case Varint(w) => VarintValueRoundTrip(v.n, w, rest);
    case UVarint(w) =>
      VarintRoundTrip(v.n, rest);
      SmallMod(v.n, Pow2(8 * w));
    case SVarint(w) =>
      Pow2Monotone(8 * w, 64);
      ZigZagRoundTrip(v.n);
      SignedRoundTrip(v.n, w);
      VarintRoundTrip(ZigZag(v.n), rest);
    case Fixed32 =>
      LittleEndianRoundTrip(v.n, 4);
      TakeHead(LittleEndian(v.n, 4), rest);
    case Fixed64 =>
      LittleEndianRoundTrip(v.n, 8);
      TakeHead(LittleEndian(v.n, 8), rest);
  }

  lemma TakeHead(b: seq<byte>, rest: seq<byte>)
    ensures Take(b + rest, |b|) == Some(Parsed(b, rest))
  {
    assert (b + rest)[..|b|] == b && (b + rest)[|b|..] == rest;
  }

  lemma {:induction false} NoZero(b: seq<byte>)
    requires 0 !in b
    ensures UpToZero(b) == b
  {
    if b != [] {
      NoZero(b[1..]);
    }
  }

  lemma OctetsRoundTrip(lt: LType, v: Value, rest: seq<byte>)
    requires (lt.Bytes? || lt.String? || lt.FixedBytes?) && TypedValue(lt, v)
    requires EncodableValue(lt, v) && TerminatedValue(lt, v) && |v.b| < TWO32
    ensures DecodeOctets(lt, EncodeValue(lt, v) + rest) == Some(Parsed(v, rest))
  {
    hide DecodeVarint32, EncodeVarint;
    Varint32RoundTrip(|v.b|, v.b + rest);
    assert Prefixed(v.b) + rest == EncodeVarint(|v.b|) + (v.b + rest);
    TakeHead(v.b, rest);
    if lt.String? {
      NoZero(v.b);
    } else if lt.FixedBytes? && |v.b| == 0 {
      assert v.b + rest == rest && v == DefaultValue(lt);
    }
  }

  /** The encoder accepts a string that fills its buffer and leaves no room for the terminator; the decoder does not. */
  lemma StringRoundTripIff(capacity: nat, v: Value, rest: seq<byte>)
    requires TypedValue(String(capacity), v) && |v.b| < TWO32
    ensures DecodeOctets(String(capacity), EncodeValue(String(capacity), v) + rest) == Some(Parsed(v, rest))
            <==> |v.b| < capacity
  {
    hide DecodeVarint32, EncodeVarint;
    if |v.b| < capacity {
      OctetsRoundTrip(String(capacity), v, rest);
    } else {
      Varint32RoundTrip(|v.b|, v.b + rest);
      assert Prefixed(v.b) + rest == EncodeVarint(|v.b|) + (v.b + rest);
    }
  }

  /** One byte in an array of one byte: the encoder sends it, and the decoder refuses what was sent. */
  lemma StringFillsArray()
    ensures TypedValue(String(1), Octets([65])) && EncodeValue(String(1), Octets([65])) == [1, 65]
    ensures DecodeOctets(String(1), [1, 65]) == None
  {
    var sent := EncodeValue(String(1), Octets([65]));
    StringRoundTripIff(1, Octets([65]), []);
    assert sent == [1, 65] == sent + [];
  }

  // ---- records ----

  lemma IndexIsUnique(fields: seq<Field>, i: nat)
    requires WellFormed(fields) && i < |fields|
    ensures Has(fields, fields[i].tag) && IndexOf(fields, fields[i].tag) == i
  {
  }

  /** One record with its tag moves the loop on by the field it decodes. */
  lemma RecordStep(fields: seq<Field>, i: nat, st: Progress, wireType: nat, body: seq<byte>, more: seq<byte>,
                   entered: Progress, m: seq<seq<Value>>)
    requires WellFormed(fields) && ProgressOk(fields, st) && i < |fields| && wireType < 8
    requires EnterField(fields, i, st) == Some(entered) && |m| == |fields|
    requires DecodeField(fields, i, entered.m, wireType, body + more) == Some(Parsed(m, more))
    ensures DecodeLoop(fields, st, EncodeTag(fields[i].tag, wireType) + body + more)
              == DecodeLoop(fields, entered.(m := m), more)
  {
    hide DecodeTag, EncodeTag, EnterField, DecodeField, Has, IndexOf, WellFormed;
    TagOk(fields, i);
    IndexIsUnique(fields, i);
    var tag := EncodeTag(fields[i].tag, wireType);
    TagRoundTrip(fields[i].tag, wireType, body + more);
    assert tag + body + more == tag + (body + more);
    assert DecodeTag([]) == EndOfMessage([]) by {
      EmptyTag();
    }
  }

  lemma EmptyTag()
    ensures DecodeTag([]) == EndOfMessage([])
  {
  }

  lemma TagOk(fields: seq<Field>, i: nat)
    requires WellFormed(fields) && i < |fields|
    ensures 0 < fields[i].tag < MAX_TAG && WellTyped(fields[i].ltype)
  {
    assert WellFormedField(fields[i]);
  }

  // ---- a whole message ----

  predicate SeenBefore(fields: seq<Field>, i: nat, seen: set<nat>)
    requires i <= |fields|
  {
    forall k: nat :: k < RequiredBefore(fields, i) && k < MAX_REQUIRED ==> k in seen
  }

  /** The fields before i are as in m, the others still at their defaults. */
  predicate At(fields: seq<Field>, m: seq<seq<Value>>, i: nat, st: Progress)
    requires i <= |fields| == |m|
  {
    && ProgressOk(fields, st)
    && (forall j :: 0 <= j < |fields| ==> st.m[j] == if j < i then m[j] else DefaultSlot(fields[j]))
    && SeenBefore(fields, i, st.seen)
    && FixedComplete(fields, st) && (st.partial.Some? ==> st.partial.value < i)
  }

  /** What a struct must be for its encoding to come back. */
  predicate Storable(fields: seq<Field>, m: seq<seq<Value>>) {
    Typed(fields, m) && Encodable(fields, m) && Terminated(fields, m)
  }

  predicate StorableValue(lt: LType, v: Value) {
    TypedValue(lt, v) && EncodableValue(lt, v) && TerminatedValue(lt, v)
  }

  predicate StorableSlot(f: Field, slot: seq<Value>) {
    TypedSlot(f, slot) && EncodableSlot(f, slot) && forall k :: 0 <= k < |slot| ==> StorableValue(f.ltype, slot[k])
  }

  lemma SlotStorable(fields: seq<Field>, m: seq<seq<Value>>, i: nat)
    requires Storable(fields, m) && i < |fields|
    ensures StorableSlot(fields[i], m[i])
  {
    assert EncodableSlot(fields[i], m[i]) && TerminatedSlot(fields[i], m[i]);
  }

  lemma {:induction false} PackedRoundTrip(lt: LType, max: nat, done: seq<Value>, vs: seq<Value>)
    requires Packable(lt) && WellTyped(lt) && |done| + |vs| <= max
    requires forall k :: 0 <= k < |vs| ==> TypedValue(lt, vs[k])
    ensures DecodePacked(lt, max, done, EncodePacked(lt, vs)) == Some(done + vs)
    decreases |vs|
  {
    hide TypedValue, EncodeValue, DecodeNumber;
    if vs == [] {
      assert done + vs == done;
    } else {
      NumberRoundTrip(lt, vs[0], EncodePacked(lt, vs[1..]));
      PackedRoundTrip(lt, max, done + [vs[0]], vs[1..]);
      assert done + [vs[0]] + vs[1..] == done + vs;
    }
  }

  lemma {:induction false} ValueRoundTrip(lt: LType, v: Value, initialise: bool, prior: Value, rest: seq<byte>)
    requires WellTyped(lt) && StorableValue(lt, v) && |EncodeValue(lt, v)| < TWO32
    requires initialise || prior == DefaultValue(lt)
    ensures DecodeValue(lt, initialise, prior, EncodeValue(lt, v) + rest) == Some(Parsed(v, rest))
    decreases lt, 0
  {
    if Packable(lt) {
      NumberRoundTrip(lt, v, rest);
    } else if !lt.Message? {
      OctetsRoundTrip(lt, v, rest);
    } else {
      hide DecodePrefixed, DecodeFields, Encode, Typed, Encodable, Terminated, Prefixed, WellFormed;
      PrefixedLength(Encode(lt.fields, v.slots));
      PrefixedRoundTrip(Encode(lt.fields, v.slots), rest);
      MessageRoundTrip(lt.fields, v.slots);
    }
  }

  lemma {:induction false} FieldValueRoundTrip(f: Field, v: Value, initialise: bool, prior: Value, rest: seq<byte>)
    requires WellTyped(f.ltype) && StorableValue(f.ltype, v) && |EncodeValue(f.ltype, v)| < TWO32
    requires initialise || prior == DefaultValue(f.ltype)
    ensures DecodeValue(f.ltype, initialise, prior, EncodeValue(f.ltype, v) + rest) == Some(Parsed(v, rest))
    decreases f
  {
    ValueRoundTrip(f.ltype, v, initialise, prior, rest);
  }

  lemma PrefixedLength(b: seq<byte>)
    ensures |b| < |Prefixed(b)|
  {
  }

  /** The main result: decoding the encoding of a storable struct, from the defaults, gives the struct back. */
  lemma {:induction false} MessageRoundTrip(fields: seq<Field>, m: seq<seq<Value>>)
    requires WellFormed(fields) && Storable(fields, m) && |Encode(fields, m)| < TWO32
    ensures DecodeFields(fields, Defaults(fields), Encode(fields, m)) == Some(m)
    ensures Decode(fields, Encode(fields, m)) == Some(m)
    decreases fields, 2
  {
    hide DecodeLoop, EncodeSlots, WellFormed, Storable, TypedSlot;
    var st := Progress(Defaults(fields), {}, None);
    assert Typed(fields, m) by {
      StorableIsTyped(fields, m);
    }
    assert fields[0..] == fields && m[0..] == m;
    var end := LoopRoundTrip(fields, m, 0, st);
    assert end.m == m;
  }

  lemma StorableIsTyped(fields: seq<Field>, m: seq<seq<Value>>)
    requires Storable(fields, m)
    ensures Typed(fields, m)
  {
  }

  lemma {:induction false} LoopRoundTrip(fields: seq<Field>, m: seq<seq<Value>>, i: nat, st: Progress)
    returns (end: Progress)
    requires WellFormed(fields) && Storable(fields, m) && i <= |fields| && At(fields, m, i, st)
    requires |EncodeSlots(fields[i..], m[i..])| < TWO32
    ensures At(fields, m, |fields|, end)
    ensures DecodeLoop(fields, st, EncodeSlots(fields[i..], m[i..])) == Some(end)
    decreases fields, 1, |fields| - i
  {
    if i == |fields| {
      end := st;
    } else {
      hide DecodeLoop, EncodeSlot, WellFormed, Storable, TypedSlot, At;
      SlotsNext(fields, m, i);
      var next := SlotRoundTrip(fields, m, i, st, EncodeSlots(fields[i + 1..], m[i + 1..]));
      end := LoopRoundTrip(fields, m, i + 1, next);
    }
  }

  // ---- one slot ----

  /** A field whose slot is at its default and sends nothing is passed over. */
  lemma PassOver(fields: seq<Field>, m: seq<seq<Value>>, i: nat, st: Progress)
    requires i < |fields| == |m| && At(fields, m, i, st)
    requires m[i] == DefaultSlot(fields[i]) && !fields[i].htype.Required?
    ensures At(fields, m, i + 1, st)
  {
    hide DefaultSlot, FixedComplete;
  }

  /** Entering a field for the first time leaves the slots alone. */
  lemma EnterAt(fields: seq<Field>, m: seq<seq<Value>>, i: nat, st: Progress) returns (entered: Progress)
    requires i < |fields| == |m| && At(fields, m, i, st)
    ensures EnterField(fields, i, st) == Some(entered) && entered.m == st.m && ProgressOk(fields, entered)
    ensures IsArray(fields[i].htype) ==> EnterField(fields, i, entered) == Some(entered)
    ensures entered.partial == if fields[i].htype.FixedArray? then Some(i) else st.partial
    ensures SeenBefore(fields, i + 1, entered.seen)
  {
    hide RequiredBefore;
    RequiredStep(fields, i);
    assert fields[i].htype.FixedArray? ==> st.m[i := []] == st.m;
    entered := EnterField(fields, i, st).value;
  }

  lemma RequiredStep(fields: seq<Field>, i: nat)
    requires i < |fields|
    ensures RequiredBefore(fields, i + 1) == RequiredBefore(fields, i) + if fields[i].htype.Required? then 1 else 0
  {
  }

  /** Once its slot is filled, the loop is past the field. */
  lemma MoveOn(fields: seq<Field>, m: seq<seq<Value>>, i: nat, st: Progress, next: Progress)
    requires i < |fields| == |m| && At(fields, m, i, st) && TypedSlot(fields[i], m[i])
    requires |next.m| == |fields| && next.m[i] == m[i]
    requires forall j :: 0 <= j < |fields| && j != i ==> next.m[j] == st.m[j]
    requires next.partial == if fields[i].htype.FixedArray? then Some(i) else st.partial
    requires SeenBefore(fields, i + 1, next.seen)
    ensures At(fields, m, i + 1, next)
  {
    hide DefaultSlot, SeenBefore, TypedValue;
  }

  lemma PackedSlot(fields: seq<Field>, m: seq<seq<Value>>, i: nat, st: Progress, more: seq<byte>)
    returns (next: Progress)
    requires WellFormed(fields) && i < |fields| == |m| && At(fields, m, i, st)
    requires StorableSlot(fields[i], m[i]) && IsArray(fields[i].htype) && Packable(fields[i].ltype) && m[i] != []
    requires |EncodeSlot(fields[i], m[i])| < TWO32
    ensures At(fields, m, i + 1, next)
    ensures DecodeLoop(fields, st, EncodeSlot(fields[i], m[i]) + more) == DecodeLoop(fields, next, more)
  {
    hide DecodeLoop, EnterField, WellFormed, At, Prefixed, EncodePacked, DecodePacked, DecodePrefixed, EncodeTag;
    var f := fields[i];
    var entered := EnterAt(fields, m, i, st);
    next := entered.(m := entered.m[i := m[i]]);
    SlotUnset(fields, m, i, st);
    TagOk(fields, i);
    PackedRoundTrip(f.ltype, f.htype.max, [], m[i]);
    assert [] + m[i] == m[i];
    var packed := EncodePacked(f.ltype, m[i]);
    PrefixedLength(packed);
    PrefixedRoundTrip(packed, more);
    RecordStep(fields, i, st, WT_STRING, Prefixed(packed), more, entered, next.m);
    MoveOn(fields, m, i, st, next);
  }

  lemma SlotUnset(fields: seq<Field>, m: seq<seq<Value>>, i: nat, st: Progress)
    requires i < |fields| == |m| && At(fields, m, i, st)
    ensures |st.m| == |fields| && st.m[i] == DefaultSlot(fields[i]) && ProgressOk(fields, st)
  {
  }

  /** A field that is not an array sends one record. */
  lemma {:induction false} SingleSlot(fields: seq<Field>, m: seq<seq<Value>>, i: nat, st: Progress, more: seq<byte>)
    returns (next: Progress)
    requires WellFormed(fields) && Typed(fields, m) && i < |fields| == |m| && At(fields, m, i, st)
    requires StorableSlot(fields[i], m[i]) && !IsArray(fields[i].htype) && m[i] != []
    requires |EncodeTagged(fields[i], m[i])| < TWO32
    ensures At(fields, m, i + 1, next)
    ensures DecodeLoop(fields, st, EncodeTagged(fields[i], m[i]) + more) == DecodeLoop(fields, next, more)
    decreases fields, 0, 0
  {
    hide DecodeLoop, EnterField, WellFormed, At, EncodeTag, Typed, TypedValue, ClearUnion, DecodeValue;
    hide EncodeValue;
    var f, v := fields[i], m[i][0];
    var entered := EnterAt(fields, m, i, st);
    SlotUnset(fields, m, i, st);
    TagOk(fields, i);
    var body := EncodeValue(f.ltype, v);
    assert EncodeTagged(f, m[i]) == EncodeTag(f.tag, WireTypeOf(f.ltype)) + body by {
      TaggedOne(f, m[i]);
    }
    FieldValueRoundTrip(f, v, false, OldValue(f, st.m[i]), more);
    UnionClear(fields, m, i, st);
    next := entered.(m := entered.m[i := [v]]);
    RecordStep(fields, i, st, WireTypeOf(f.ltype), body, more, entered, next.m);
    MoveOn(fields, m, i, st, next);
  }

  /** The other members of the union are unset already. */
  lemma UnionClear(fields: seq<Field>, m: seq<seq<Value>>, i: nat, st: Progress)
    requires Typed(fields, m) && i < |fields| && At(fields, m, i, st) && m[i] != []
    ensures ClearUnion(fields, i, st.m) == st.m
  {
    hide TypedSlot, SeenBefore, FixedComplete;
    assert ClearUnion(fields, i, st.m) == st.m;
  }

  /** The entries of an unpacked array arrive one record each. */
  lemma {:induction false} ArrayRoundTrip(fields: seq<Field>, i: nat, st: Progress, entered: Progress, vs: seq<Value>,
                                          more: seq<byte>)
    requires WellFormed(fields) && i < |fields| && ProgressOk(fields, st) && ProgressOk(fields, entered)
    requires EnterField(fields, i, st) == Some(entered) && EnterField(fields, i, entered) == Some(entered)
    requires IsArray(fields[i].htype) && !Packable(fields[i].ltype) && vs != []
    requires |entered.m[i]| + |vs| <= fields[i].htype.max
    requires forall k :: 0 <= k < |vs| ==> TypedValue(fields[i].ltype, vs[k])
    requires forall k :: 0 <= k < |vs| ==> StorableValue(fields[i].ltype, vs[k])
    requires |EncodeTagged(fields[i], vs)| < TWO32
    ensures DecodeLoop(fields, st, EncodeTagged(fields[i], vs) + more)
              == DecodeLoop(fields, entered.(m := entered.m[i := entered.m[i] + vs]), more)
    decreases fields, 0, |vs|
  {
    hide DecodeLoop, WellFormed, EncodeTag, TypedValue, DecodeValue, EncodeValue;
    var f := fields[i];
    TagOk(fields, i);
    forall k | 0 <= k < |vs[1..]|
      ensures StorableValue(f.ltype, vs[1..][k])
    {
      assert StorableValue(f.ltype, vs[k + 1]);
    }
    assert StorableValue(f.ltype, vs[0]);
    var body, rest := EncodeValue(f.ltype, vs[0]), EncodeTagged(f, vs[1..]);
    FieldValueRoundTrip(f, vs[0], true, DefaultValue(f.ltype), rest + more);
    var filled := entered.(m := entered.m[i := entered.m[i] + [vs[0]]]);
    RecordStep(fields, i, st, WireTypeOf(f.ltype), body, rest + more, entered, filled.m);
    assert EncodeTagged(f, vs) + more == EncodeTag(f.tag, WireTypeOf(f.ltype)) + body + (rest + more);
    if |vs| == 1 {
      assert rest + more == more && vs == [vs[0]];
    } else {
      ArrayRoundTrip(fields, i, filled, filled, vs[1..], more);
      assert filled.m[i] + vs[1..] == entered.m[i] + vs;
      assert filled.m[i := filled.m[i] + vs[1..]] == entered.m[i := entered.m[i] + vs];
    }
  }

  lemma {:induction false} ArraySlot(fields: seq<Field>, m: seq<seq<Value>>, i: nat, st: Progress, more: seq<byte>)
    returns (next: Progress)
    requires WellFormed(fields) && i < |fields| == |m| && At(fields, m, i, st)
    requires StorableSlot(fields[i], m[i]) && IsArray(fields[i].htype) && !Packable(fields[i].ltype) && m[i] != []
    requires |EncodeTagged(fields[i], m[i])| < TWO32
    ensures At(fields, m, i + 1, next)
    ensures DecodeLoop(fields, st, EncodeTagged(fields[i], m[i]) + more) == DecodeLoop(fields, next, more)
    decreases fields, 0, |m[i]| + 1
  {
    hide DecodeLoop, EnterField, WellFormed, At, EncodeTagged;
    var entered := EnterAt(fields, m, i, st);
    SlotUnset(fields, m, i, st);
    ArrayRoundTrip(fields, i, st, entered, m[i], more);
    assert [] + m[i] == m[i];
    next := entered.(m := entered.m[i := m[i]]);
    MoveOn(fields, m, i, st, next);
  }

  /** The records of one slot move the loop past its field. */
  lemma {:induction false} SlotRoundTrip(fields: seq<Field>, m: seq<seq<Value>>, i: nat, st: Progress, more: seq<byte>)
    returns (next: Progress)
    requires WellFormed(fields) && Storable(fields, m) && i < |fields| == |m| && At(fields, m, i, st)
    requires TypedSlot(fields[i], m[i]) && |EncodeSlot(fields[i], m[i])| < TWO32
    ensures At(fields, m, i + 1, next)
    ensures DecodeLoop(fields, st, EncodeSlot(fields[i], m[i]) + more) == DecodeLoop(fields, next, more)
    decreases fields, 0, |m[i]| + 2
  {
    hide DecodeLoop, WellFormed, At, EncodeTagged, Storable, TypedValue, Prefixed, EncodePacked, EncodeTag;
    var f, slot := fields[i], m[i];
    SlotStorable(fields, m, i);
    StorableIsTyped(fields, m);
    if slot == [] || (f.htype.Singular? && IsZero(f.ltype, slot[0])) {
      NothingSent(f, slot);
      PassOver(fields, m, i, st);
      assert EncodeSlot(f, slot) + more == more;
      next := st;
    } else if !IsArray(f.htype) {
      next := SingleSlot(fields, m, i, st, more);
    } else if Packable(f.ltype) {
      next := PackedSlot(fields, m, i, st, more);
    } else {
      next := ArraySlot(fields, m, i, st, more);
    }
  }

  lemma NothingSent(f: Field, slot: seq<Value>)
    requires TypedSlot(f, slot) && (slot == [] || (f.htype.Singular? && IsZero(f.ltype, slot[0])))
    ensures EncodeSlot(f, slot) == [] && slot == DefaultSlot(f) && !f.htype.Required?
  {
    if f.htype.Singular? {
      ZeroIsDefault(f.ltype, slot[0]);
    }
  }
}
