/** Which byte strings pb_decode accepts: required fields, unknown records and numbers out of range. */
module Received {
  import opened Basics
  import opened Wire
  import opened Messages
  import opened Parsing

  // ---- required fields ----

  function RelaxedField(f: Field): Field {
    if f.htype.Required? then f.(htype := Optional) else f
  }

  /** The same descriptor with its required fields made optional. */
  function Relaxed(fields: seq<Field>): (r: seq<Field>)
    ensures |r| == |fields|
  {
    seq(|fields|, i requires 0 <= i < |fields| => RelaxedField(fields[i]))
  }

  /** A required field that was not received holds its default. */
  function Filled(fields: seq<Field>, m: seq<seq<Value>>): (r: seq<seq<Value>>)
    requires |m| == |fields|
    ensures |r| == |m|
  {
    seq(|m|, i requires 0 <= i < |m| =>
      if fields[i].htype.Required? && m[i] == [] then [DefaultValue(fields[i].ltype)] else m[i])
  }

  lemma {:induction false} RequiredGrows(fields: seq<Field>, i: nat, j: nat)
    requires i <= j <= |fields|
    ensures RequiredBefore(fields, i) <= RequiredBefore(fields, j)
    ensures i < j && fields[i].htype.Required? ==> RequiredBefore(fields, i) < RequiredBefore(fields, j)
  {
    if i < j {
      RequiredGrows(fields, i, j - 1);
    }
  }

  lemma {:induction false} RequiredAt(fields: seq<Field>, n: nat, k: nat) returns (i: nat)
    requires n <= |fields| && k < RequiredBefore(fields, n)
    ensures i < n && fields[i].htype.Required? && RequiredBefore(fields, i) == k
  {
    if k < RequiredBefore(fields, n - 1) {
      i := RequiredAt(fields, n - 1, k);
    } else {
      i := n - 1;
    }
  }

  /** The two decoders side by side: they agree but for required fields not received yet, and those seen are those
      received. */
  predicate Alike(fields: seq<Field>, st: Progress, st': Progress) {
    && |st.m| == |st'.m| == |fields| && st.partial == st'.partial && st.m == Filled(fields, st'.m)
    && forall i :: 0 <= i < |fields| && fields[i].htype.Required? && RequiredBefore(fields, i) < MAX_REQUIRED ==>
         (RequiredBefore(fields, i) in st.seen <==> st'.m[i] != [])
  }

  lemma {:induction false} SameTags(fields: seq<Field>, tag: nat)
    ensures Has(fields, tag) <==> Has(Relaxed(fields), tag)
    ensures Has(fields, tag) ==> IndexOf(fields, tag) == IndexOf(Relaxed(fields), tag)
    decreases |fields|
  {
    var r := Relaxed(fields);
    forall i | 0 <= i < |fields|
      ensures r[i].tag == fields[i].tag
    {
    }
    if Has(fields, tag) && fields[0].tag != tag {
      assert r[1..] == Relaxed(fields[1..]);
      assert Has(fields[1..], tag) by {
        var i :| 0 <= i < |fields| && fields[i].tag == tag;
        assert fields[1..][i - 1].tag == tag;
      }
      SameTags(fields[1..], tag);
    }
  }

  lemma EntersAlike(fields: seq<Field>, i: nat, st: Progress, st': Progress)
    requires i < |fields| && ProgressOk(fields, st) && ProgressOk(Relaxed(fields), st') && Alike(fields, st, st')
    ensures var e, e' := EnterField(fields, i, st), EnterField(Relaxed(fields), i, st');
            && (e.None? <==> e'.None?)
            && (e.Some? ==>
                  && e.value.m == Filled(fields, e'.value.m) && e.value.partial == e'.value.partial
                  && e.value.seen == (if fields[i].htype.Required? && RequiredBefore(fields, i) < MAX_REQUIRED
                                      then st.seen + {RequiredBefore(fields, i)} else st.seen)
                  && forall j :: 0 <= j < |fields| && fields[j].htype.Required? ==> e'.value.m[j] == st'.m[j])
  {
  }

  lemma FieldAlike(fields: seq<Field>, i: nat, m: seq<seq<Value>>, m': seq<seq<Value>>, wireType: nat, s: seq<byte>)
    requires i < |fields| == |m'| && m == Filled(fields, m')
    ensures var r, r' := DecodeField(fields, i, m, wireType, s), DecodeField(Relaxed(fields), i, m', wireType, s);
            && (r.None? <==> r'.None?)
            && (r.Some? ==>
                  && r.value.rest == r'.value.rest && r.value.value == Filled(fields, r'.value.value)
                  && (forall j :: 0 <= j < |fields| && j != i && fields[j].htype.Required? ==>
                        r'.value.value[j] == m'[j])
                  && (fields[i].htype.Required? ==> r'.value.value[i] != []))
  {
    hide DecodeValue, DecodePacked, DecodePrefixed;
  }

  lemma StepAlike(fields: seq<Field>, i: nat, st: Progress, st': Progress, wireType: nat, s: seq<byte>)
    requires i < |fields| && ProgressOk(fields, st) && ProgressOk(Relaxed(fields), st') && Alike(fields, st, st')
    requires EnterField(fields, i, st).Some? && EnterField(Relaxed(fields), i, st').Some?
    ensures var e, e' := EnterField(fields, i, st).value, EnterField(Relaxed(fields), i, st').value;
            var r, r' := DecodeField(fields, i, e.m, wireType, s), DecodeField(Relaxed(fields), i, e'.m, wireType, s);
            && (r.None? <==> r'.None?)
            && (r.Some? ==>
                  && r.value.rest == r'.value.rest
                  && Alike(fields, e.(m := r.value.value), e'.(m := r'.value.value)))
  {
    hide DecodeField, EnterField, Relaxed, Filled;
    EntersAlike(fields, i, st, st');
    var e, e' := EnterField(fields, i, st).value, EnterField(Relaxed(fields), i, st').value;
    FieldAlike(fields, i, e.m, e'.m, wireType, s);
    forall j | 0 <= j < |fields| && fields[j].htype.Required? && fields[i].htype.Required? && j != i
      ensures RequiredBefore(fields, j) != RequiredBefore(fields, i)
    {
      RequiredGrows(fields, if i < j then i else j, if i < j then j else i);
    }
  }

  lemma {:induction false} LoopAlike(fields: seq<Field>, st: Progress, st': Progress, s: seq<byte>)
    requires fields != [] && ProgressOk(fields, st) && ProgressOk(Relaxed(fields), st') && Alike(fields, st, st')
    ensures var r, r' := DecodeLoop(fields, st, s), DecodeLoop(Relaxed(fields), st', s);
            (r.None? <==> r'.None?) && (r.Some? ==> Alike(fields, r.value, r'.value))
    decreases |s|
  {
    hide DecodeTag, DecodeField, EnterField, Has, IndexOf, Relaxed, Alike, SkipField;
    if s != [] {
      var t := DecodeTag(s);
      if t.Tag? {
        SameTags(fields, t.tag);
        if Has(fields, t.tag) {
          var i := IndexOf(fields, t.tag);
          EntersOrNot(fields, i, st, st');
          if EnterField(fields, i, st).Some? {
            var e, e' := EnterField(fields, i, st).value, EnterField(Relaxed(fields), i, st').value;
            StepAlike(fields, i, st, st', t.wireType, t.rest);
            var r := DecodeField(fields, i, e.m, t.wireType, t.rest);
            var r' := DecodeField(Relaxed(fields), i, e'.m, t.wireType, t.rest);
            if r.Some? {
              LoopAlike(fields, e.(m := r.value.value), e'.(m := r'.value.value), r.value.rest);
            }
          }
        } else {
          assert Relaxed(fields) != [];
          var more := PassUnknown(fields, t.tag, t.wireType, t.rest);
          if more.Some? {
            LoopAlike(fields, st, st', more.value);
          }
        }
      }
    }
  }

  lemma EntersOrNot(fields: seq<Field>, i: nat, st: Progress, st': Progress)
    requires i < |fields| && ProgressOk(fields, st) && ProgressOk(Relaxed(fields), st') && Alike(fields, st, st')
    ensures EnterField(fields, i, st).None? <==> EnterField(Relaxed(fields), i, st').None?
  {
    hide EnterField;
    EntersAlike(fields, i, st, st');
  }

  /** Every required field up to the 64th has been received. */
  predicate AllReceived(fields: seq<Field>, m: seq<seq<Value>>)
    requires |m| == |fields|
  {
    forall i :: 0 <= i < |fields| && fields[i].htype.Required? && RequiredBefore(fields, i) < 64 ==> m[i] != []
  }

  /** pb_decode succeeds exactly if it would with the required fields made optional and each of them, up to the 64th,
      was then received; and then it gives the same struct, with later required fields at their defaults if they were
      not. */
  lemma RequiredAreReceived(fields: seq<Field>, s: seq<byte>)
    requires fields != []
    ensures var r, r' := Decode(fields, s), Decode(Relaxed(fields), s);
            && (r.Some? <==> r'.Some? && AllReceived(fields, r'.value))
            && (r.Some? ==> r.value == Filled(fields, r'.value))
  {
    hide DecodeLoop, AllRequiredSeen, Relaxed, Filled, Defaults, FixedComplete, AllReceived;
    var st, st' := Progress(Defaults(fields), {}, None), Progress(Defaults(Relaxed(fields)), {}, None);
    StartAlike(fields);
    LoopAlike(fields, st, st', s);
    var r, r' := DecodeLoop(fields, st, s), DecodeLoop(Relaxed(fields), st', s);
    if r.Some? {
      EndAlike(fields, r.value, r'.value);
    }
  }

  lemma StartAlike(fields: seq<Field>)
    ensures Alike(fields, Progress(Defaults(fields), {}, None), Progress(Defaults(Relaxed(fields)), {}, None))
  {
    hide DefaultValue;
  }

  lemma EndAlike(fields: seq<Field>, st: Progress, st': Progress)
    requires ProgressOk(fields, st) && ProgressOk(Relaxed(fields), st') && Alike(fields, st, st')
    ensures AllRequiredSeen(Relaxed(fields), st'.seen)
    ensures AllRequiredSeen(fields, st.seen) <==> AllReceived(fields, st'.m)
    ensures FixedComplete(fields, st) <==> FixedComplete(Relaxed(fields), st')
  {
    hide FixedComplete, AllRequiredSeen, Alike, AllReceived;
    NothingRequired(fields, |fields|);
    NoneRequired(fields, st'.seen);
    SeenIsReceived(fields, st, st');
    CompleteAlike(fields, st, st');
  }

  lemma {:induction false} NothingRequired(fields: seq<Field>, n: nat)
    requires n <= |fields|
    ensures RequiredBefore(Relaxed(fields), n) == 0
  {
    if n > 0 {
      NothingRequired(fields, n - 1);
    }
  }

  lemma NoneRequired(fields: seq<Field>, seen: set<nat>)
    ensures AllRequiredSeen(Relaxed(fields), seen)
  {
    NothingRequired(fields, |fields|);
  }

  lemma CompleteAlike(fields: seq<Field>, st: Progress, st': Progress)
    requires ProgressOk(fields, st) && ProgressOk(Relaxed(fields), st') && Alike(fields, st, st')
    ensures FixedComplete(fields, st) <==> FixedComplete(Relaxed(fields), st')
  {
  }

  lemma SeenIsReceived(fields: seq<Field>, st: Progress, st': Progress)
    requires Alike(fields, st, st')
    ensures AllRequiredSeen(fields, st.seen) <==> AllReceived(fields, st'.m)
  {
    forall i | 0 <= i < |fields| && fields[i].htype.Required?
      ensures RequiredBefore(fields, i) < RequiredBefore(fields, |fields|)
    {
      RequiredGrows(fields, i, |fields|);
    }
    forall k: nat | k < RequiredBefore(fields, |fields|) && k < MAX_REQUIRED && k !in st.seen
      ensures !AllReceived(fields, st'.m)
    {
      var i := RequiredAt(fields, |fields|, k);
    }
  }

  // ---- records of unknown fields ----

  lemma {:induction false} VarintSkipped(v: nat, rest: seq<byte>)
    ensures SkipVarint(EncodeVarint(v) + rest) == Some(rest)
    decreases v
  {
    hide EncodeVarint;
    VarintHead(v, rest);
    if v >= 128 {
      VarintSkipped(v / 128, rest);
    }
  }

  /** What follows the tag of a record, by wire type: a varint, eight bytes, a length and that many bytes, or four. */
  ghost predicate IsBody(wireType: nat, body: seq<byte>) {
    match wireType
    case 0 => exists v :: body == EncodeVarint(v)
    case 1 => |body| == 8
    case 2 => exists b: seq<byte> :: |b| < TWO32 && body == EncodeVarint(|b|) + b
    case 5 => |body| == 4
    case _ => false
  }

  lemma BodySkipped(wireType: nat, body: seq<byte>, rest: seq<byte>)
    requires IsBody(wireType, body)
    ensures SkipField(wireType, body + rest) == Some(rest)
  {
    hide EncodeVarint, DecodeVarint32, SkipVarint;
    match wireType
    case 0 =>
      var v :| body == EncodeVarint(v);
      VarintSkipped(v, rest);
    case 1 =>
      assert (body + rest)[8..] == rest;
    case 2 =>
      var b: seq<byte> :| |b| < TWO32 && body == EncodeVarint(|b|) + b;
      PrefixedRoundTrip(b, rest);
      assert body == Prefixed(b);
    case 5 =>
      assert (body + rest)[4..] == rest;
  }

  /** A record of a field the descriptor does not have is skipped, whichever wire type it has; and the groups and the
      wire types there are not are refused. */
  lemma UnknownIsIgnored(fields: seq<Field>, st: Progress, tag: nat, wireType: nat, body: seq<byte>, rest: seq<byte>)
    requires ProgressOk(fields, st) && !Has(fields, tag) && 0 < tag < MAX_TAG && wireType < 8
    ensures IsBody(wireType, body) ==>
              DecodeLoop(fields, st, EncodeTag(tag, wireType) + body + rest) == DecodeLoop(fields, st, rest)
    ensures wireType !in {0, 1, 2, 5} ==> DecodeLoop(fields, st, EncodeTag(tag, wireType) + body + rest) == None
  {
    hide DecodeTag, EncodeTag, Has, SkipField, IsBody;
    TagRoundTrip(tag, wireType, body + rest);
    Regroup(EncodeTag(tag, wireType), body, rest);
    EmptyTag();
    if IsBody(wireType, body) {
      BodySkipped(wireType, body, rest);
    }
    if wireType !in {0, 1, 2, 5} {
      GroupsRefused(wireType, body + rest);
    }
  }

  lemma GroupsRefused(wireType: nat, s: seq<byte>)
    requires wireType !in {0, 1, 2, 5}
    ensures SkipField(wireType, s) == None
  {
  }

  /** Every value is sent under the wire type by which a reader that does not know the field finds its end. */
  lemma ValueIsBody(lt: LType, v: Value)
    requires TypedValue(lt, v) && |EncodeValue(lt, v)| < TWO32
    ensures IsBody(WireTypeOf(lt), EncodeValue(lt, v))
  {
    hide EncodeVarint, Encode, Typed, LittleEndian;
    match lt
    case Message(fields) => PrefixedIsBody(Encode(fields, v.slots));
    case Bytes(_) => PrefixedIsBody(v.b);
    case String(_) => PrefixedIsBody(v.b);
    case FixedBytes(_) => PrefixedIsBody(v.b);
    case _ =>
  }

  lemma PrefixedIsBody(b: seq<byte>)
    requires |b| < TWO32
    ensures IsBody(2, Prefixed(b))
  {
    hide EncodeVarint;
  }

  lemma {:induction false} TaggedIsIgnored(fields: seq<Field>, st: Progress, f: Field, vs: seq<Value>, rest: seq<byte>)
    requires ProgressOk(fields, st) && !Has(fields, f.tag) && 0 < f.tag < MAX_TAG
    requires (forall k :: 0 <= k < |vs| ==> TypedValue(f.ltype, vs[k])) && |EncodeTagged(f, vs)| < TWO32
    ensures DecodeLoop(fields, st, EncodeTagged(f, vs) + rest) == DecodeLoop(fields, st, rest)
    decreases |vs|
  {
    hide TypedValue, EncodeValue, EncodeTag, DecodeLoop, IsBody, Has;
    if vs == [] {
      assert [] + rest == rest;
    } else {
      var tag, body := EncodeTag(f.tag, WireTypeOf(f.ltype)), EncodeValue(f.ltype, vs[0]);
      var more := EncodeTagged(f, vs[1..]);
      ValueIsBody(f.ltype, vs[0]);
      WireTypesAre(f.ltype);
      UnknownIsIgnored(fields, st, f.tag, WireTypeOf(f.ltype), body, more + rest);
      Regroup(tag + body, more, rest);
      TaggedIsIgnored(fields, st, f, vs[1..], rest);
    }
  }

  lemma WireTypesAre(lt: LType)
    ensures WireTypeOf(lt) < 8
  {
  }

  /** A reader whose descriptor lacks the field ignores all the encoder sends for it. */
  lemma SlotIsIgnored(fields: seq<Field>, st: Progress, f: Field, slot: seq<Value>, rest: seq<byte>)
    requires ProgressOk(fields, st) && !Has(fields, f.tag) && 0 < f.tag < MAX_TAG
    requires TypedSlot(f, slot) && |EncodeSlot(f, slot)| < TWO32
    ensures DecodeLoop(fields, st, EncodeSlot(f, slot) + rest) == DecodeLoop(fields, st, rest)
  {
    hide TypedValue, EncodeTag, DecodeLoop, IsBody, Has, EncodeTagged, Prefixed, EncodePacked, IsZero;
    assert [] + rest == rest;
    if slot != [] && IsArray(f.htype) && Packable(f.ltype) {
      var b := EncodePacked(f.ltype, slot);
      ShorterThanPrefixed(b);
      PrefixedIsBody(b);
      UnknownIsIgnored(fields, st, f.tag, WT_STRING, Prefixed(b), rest);
    } else if slot != [] && !(f.htype.Singular? && IsZero(f.ltype, slot[0])) {
      TaggedIsIgnored(fields, st, f, slot, rest);
    }
  }

  lemma ShorterThanPrefixed(b: seq<byte>)
    ensures |b| < |Prefixed(b)|
  {
  }

  // ---- numbers ----

  /** An unsigned field takes exactly the varints within its width. */
  lemma UnsignedAccepted(w: nat, z: nat, rest: seq<byte>)
    requires z < TWO64
    ensures DecodeNumber(UVarint(w), EncodeVarint(z) + rest)
            == if z < Pow2(8 * w) then Some(Parsed(Number(z), rest)) else None
  {
    hide DecodeVarint, EncodeVarint, Pow2;
    VarintRoundTrip(z, rest);
    if z < Pow2(8 * w) {
      SmallMod(z, Pow2(8 * w));
    }
  }

  /** What is stored is what was read exactly within the width. */
  lemma StoredIff(v: int, w: nat)
    ensures Signed(v, w) == v <==> 0 <= 2 * v + Pow2(8 * w) < 2 * Pow2(8 * w)
  {
    hide Pow2;
    if 0 <= 2 * v + Pow2(8 * w) < 2 * Pow2(8 * w) {
      SignedRoundTrip(v, w);
    }
  }

  /** A zigzag field takes exactly the ranks of integers within its width. */
  lemma ZigZagAccepted(w: nat, z: nat, rest: seq<byte>)
    requires z < TWO64
    ensures var v: int := if z % 2 == 0 then z / 2 else -(z / 2) - 1;
            DecodeNumber(SVarint(w), EncodeVarint(z) + rest)
            == if 0 <= 2 * v + Pow2(8 * w) < 2 * Pow2(8 * w) then Some(Parsed(Number(v), rest)) else None
  {
    hide DecodeVarint, EncodeVarint, Pow2, Signed;
    VarintRoundTrip(z, rest);
    StoredIff(UnZigZag(z), w);
  }

  /** A signed field of 64 bits takes every varint, by two's complement; a narrower one takes the low 32 bits by two's
      complement, if they are within its width. */
  lemma SignedAccepted(w: nat, z: nat, rest: seq<byte>)
    requires z < TWO64
    ensures w == 8 ==>
              var v: int := if z < 0x8000_0000_0000_0000 then z else z - TWO64;
              DecodeNumber(Varint(w), EncodeVarint(z) + rest) == Some(Parsed(Number(v), rest))
    ensures w != 8 ==>
              var low := z % 0x1_0000_0000;
              var v: int := if low < 0x8000_0000 then low else low - 0x1_0000_0000;
              DecodeNumber(Varint(w), EncodeVarint(z) + rest)
              == if 0 <= 2 * v + Pow2(8 * w) < 2 * Pow2(8 * w) then Some(Parsed(Number(v), rest)) else None
  {
    hide DecodeVarint, EncodeVarint, Pow2;
    VarintRoundTrip(z, rest);
    Pow2Is();
    var v := Signed(z, if w == 8 then 8 else 4);
    StoredIff(v, w);
    if w == 8 {
      SmallMod(z, TWO64);
    }
  }

  /** A boolean is true for every number but zero. */
  lemma BooleanAccepted(z: nat, rest: seq<byte>)
    requires z < TWO32
    ensures DecodeNumber(Boolean, EncodeVarint(z) + rest) == Some(Parsed(Number(if z == 0 then 0 else 1), rest))
  {
    hide DecodeVarint32, EncodeVarint;
    Varint32RoundTrip(z, rest);
  }

  // ---- bytes ----

  /** A byte field takes what fits it, a string what leaves room for its terminator, and fixed bytes their exact number
      or nothing, which stands for zeros. */
  lemma OctetsAccepted(lt: LType, b: seq<byte>, rest: seq<byte>)
    requires (lt.Bytes? || lt.String? || lt.FixedBytes?) && |b| < TWO32
    ensures var r := DecodeOctets(lt, EncodeVarint(|b|) + b + rest);
            && (lt.Bytes? ==> r == if |b| <= lt.capacity then Some(Parsed(Octets(b), rest)) else None)
            && (lt.String? && 0 !in b ==> r == if |b| < lt.capacity then Some(Parsed(Octets(b), rest)) else None)
            && (lt.FixedBytes? ==>
                  r == if |b| == lt.size then Some(Parsed(Octets(b), rest))
                       else if b == [] then Some(Parsed(Octets(seq(lt.size, _ => 0)), rest))
                       else None)
  {
    hide DecodeVarint32, EncodeVarint;
    Varint32RoundTrip(|b|, b + rest);
    Regroup(EncodeVarint(|b|), b, rest);
    TakeHead(b, rest);
    if 0 !in b {
      NoZero(b);
    }
  }

  /** A length that goes beyond the end of the bytes is refused. */
  lemma TruncatedIsRefused(n: nat, s: seq<byte>)
    requires |s| < n < TWO32
    ensures DecodePrefixed(EncodeVarint(n) + s) == None && SkipField(2, EncodeVarint(n) + s) == None
    ensures |s| < 8 ==> SkipField(1, s) == None && DecodeNumber(Fixed64, s) == None
    ensures |s| < 4 ==> SkipField(5, s) == None && DecodeNumber(Fixed32, s) == None
  {
    hide DecodeVarint32, EncodeVarint;
    Varint32RoundTrip(n, s);
  }

  // ---- arrays ----

  /** Of a packed array, all values are taken if there is room for all of them behind those held already; otherwise the
      whole is refused. */
  lemma {:induction false} PackedAcceptedIff(lt: LType, max: nat, held: seq<Value>, vs: seq<Value>)
    requires Packable(lt) && WellTyped(lt) && |held| <= max && forall k :: 0 <= k < |vs| ==> TypedValue(lt, vs[k])
    ensures DecodePacked(lt, max, held, EncodePacked(lt, vs)) == if |held| + |vs| <= max then Some(held + vs) else None
    decreases |vs|
  {
    hide TypedValue, EncodeValue, DecodeNumber;
    if vs == [] {
      assert held + vs == held;
    } else {
      NumberRoundTrip(lt, vs[0], EncodePacked(lt, vs[1..]));
      if |held| < max {
        PackedAcceptedIff(lt, max, held + [vs[0]], vs[1..]);
        assert held + [vs[0]] + vs[1..] == held + vs;
      } else {
        assert EncodePacked(lt, vs) != [] by {
          NumberIsSent(lt, vs[0]);
        }
      }
    }
  }

  lemma NumberIsSent(lt: LType, v: Value)
    requires Packable(lt) && TypedValue(lt, v)
    ensures EncodeValue(lt, v) != []
  {
    hide EncodeVarint, LittleEndian;
  }

  /** A full array takes no more records. */
  lemma FullArrayRefuses(fields: seq<Field>, i: nat, m: seq<seq<Value>>, wireType: nat, s: seq<byte>)
    requires i < |fields| == |m| && (fields[i].htype.Repeated? || fields[i].htype.FixedArray?)
    requires |m[i]| >= fields[i].htype.max && wireType != 2
    ensures DecodeField(fields, i, m, wireType, s) == None
  {
  }

  /** The records of a fixed array start it anew unless it is the one being received, and then add to it; they are
      refused if another one is incomplete. */
  lemma FixedArrayStartsAnew(fields: seq<Field>, i: nat, st: Progress, vs: seq<Value>, rest: seq<byte>)
    requires WellFormed(fields) && ProgressOk(fields, st) && i < |fields|
    requires fields[i].htype.FixedArray? && Packable(fields[i].ltype)
    requires forall k :: 0 <= k < |vs| ==> TypedValue(fields[i].ltype, vs[k])
    requires |EncodePacked(fields[i].ltype, vs)| < TWO32
    requires (if st.partial == Some(i) then |st.m[i]| else 0) + |vs| <= fields[i].htype.max
    ensures var f, held := fields[i], if st.partial == Some(i) then st.m[i] else [];
            DecodeLoop(fields, st, EncodeTag(f.tag, 2) + Prefixed(EncodePacked(f.ltype, vs)) + rest) ==
            if st.partial.Some? && st.partial != Some(i)
               && |st.m[st.partial.value]| != fields[st.partial.value].htype.max then None
            else DecodeLoop(fields, Progress(st.m[i := held + vs], st.seen, Some(i)), rest)
  {
    var f, held := fields[i], if st.partial == Some(i) then st.m[i] else [];
    var body := Prefixed(EncodePacked(f.ltype, vs));
    var entered := EnterField(fields, i, st);
    if entered.None? {
      RecordRefused(fields, i, st, WT_STRING, body, rest);
    } else {
      var m := entered.value.m[i := held + vs];
      PackedReceived(fields, i, entered.value.m, vs, rest);
      assert m == st.m[i := held + vs];
      RecordStep(fields, i, st, WT_STRING, body, rest, entered.value, m);
    }
  }

  lemma PackedReceived(fields: seq<Field>, i: nat, m: seq<seq<Value>>, vs: seq<Value>, rest: seq<byte>)
    requires WellFormed(fields) && i < |fields| == |m| && IsArray(fields[i].htype) && Packable(fields[i].ltype)
    requires forall k :: 0 <= k < |vs| ==> TypedValue(fields[i].ltype, vs[k])
    requires |EncodePacked(fields[i].ltype, vs)| < TWO32 && |m[i]| + |vs| <= fields[i].htype.max
    ensures DecodeField(fields, i, m, WT_STRING, Prefixed(EncodePacked(fields[i].ltype, vs)) + rest)
              == Some(Parsed(m[i := m[i] + vs], rest))
  {
    hide EncodePacked, DecodePacked, DecodePrefixed, Prefixed, TypedValue, WellFormed;
    TagOk(fields, i);
    PrefixedRoundTrip(EncodePacked(fields[i].ltype, vs), rest);
    PackedAcceptedIff(fields[i].ltype, fields[i].htype.max, m[i], vs);
  }

  lemma RecordRefused(fields: seq<Field>, i: nat, st: Progress, wireType: nat, body: seq<byte>, rest: seq<byte>)
    requires WellFormed(fields) && ProgressOk(fields, st) && i < |fields| && wireType < 8
    requires EnterField(fields, i, st) == None
    ensures DecodeLoop(fields, st, EncodeTag(fields[i].tag, wireType) + body + rest) == None
  {
    hide DecodeTag, EncodeTag, EnterField, DecodeField, Has, IndexOf, WellFormed;
    TagOk(fields, i);
    IndexIsUnique(fields, i);
    var tag := EncodeTag(fields[i].tag, wireType);
    TagRoundTrip(fields[i].tag, wireType, body + rest);
    assert tag + body + rest == tag + (body + rest);
    EmptyTag();
  }

  /** Of several records of a plain field the last one decides, whatever was there. */
  lemma LastRecordDecides(fields: seq<Field>, i: nat, m: seq<seq<Value>>, m': seq<seq<Value>>, wireType: nat,
                          s: seq<byte>)
    requires i < |fields| == |m| == |m'| && fields[i].htype in {Required, Optional, Singular}
    requires !fields[i].ltype.Message?
    ensures var r, r' := DecodeField(fields, i, m, wireType, s), DecodeField(fields, i, m', wireType, s);
            && r.Some? == r'.Some?
            && (r.Some? ==> |r.value.value[i]| == 1 && r.value.value[i] == r'.value.value[i])
            && (r.Some? ==> r.value.rest == r'.value.rest)
  {
    hide DecodeNumber, DecodeOctets;
  }

  // ---- nested messages ----

  /** A nested message that says nothing: a plain field keeps what it holds, a member of a union starts anew, and an
      array gains a default entry. So records of one field are merged into what is there, but array entries are not. */
  lemma EmptyRecord(fields: seq<Field>, i: nat, m: seq<seq<Value>>, rest: seq<byte>)
    requires i < |fields| == |m| && fields[i].ltype.Message? && fields[i].ltype.fields != []
    requires RequiredBefore(fields[i].ltype.fields, |fields[i].ltype.fields|) == 0
    ensures var f, r := fields[i], DecodeField(fields, i, m, 2, [0] + rest);
            var start := Struct(Defaults(f.ltype.fields));
            && (f.htype in {Required, Optional, Singular} ==>
                  && (m[i] == [] ==> r == Some(Parsed(m[i := [start]], rest)))
                  && (|m[i]| == 1 && m[i][0].Struct? && |m[i][0].slots| == |f.ltype.fields| ==>
                        r == Some(Parsed(m, rest))))
            && (f.htype.Oneof? ==> r.Some? && r.value.value[i] == [start])
            && ((f.htype.Repeated? || f.htype.FixedArray?) && |m[i]| < f.htype.max ==>
                  r == Some(Parsed(m[i := m[i] + [start]], rest)))
  {
    hide DecodeVarint32, Defaults;
    Varint32RoundTrip(0, rest);
    assert EncodeVarint(0) == [0];
    TakeHead([], rest);
    assert DecodePrefixed([0] + rest) == Some(Parsed([], rest)) by {
      assert [] + rest == rest;
    }
    NothingInside(fields[i].ltype.fields);
    var clear := ClearUnion(fields, i, m);
    if !fields[i].htype.Oneof? {
      assert clear == m;
      if |m[i]| == 1 {
        assert m[i] == [m[i][0]];
        assert m[i := [m[i][0]]] == m;
      }
    }
  }

  /** Decoding no bytes changes nothing. */
  lemma NothingInside(fields: seq<Field>)
    requires RequiredBefore(fields, |fields|) == 0
    ensures forall m: seq<seq<Value>> :: |m| == |fields| ==> DecodeFields(fields, m, []) == Some(m)
  {
  }

  // ---- the end of a message ----

  /** A zero tag ends the message, and a broken tag breaks it. */
  lemma ZeroEnds(fields: seq<Field>, st: Progress, rest: seq<byte>)
    requires ProgressOk(fields, st)
    ensures DecodeLoop(fields, st, [0] + rest) == Some(st)
    ensures rest != [] && DecodeVarint32(rest) == None ==> DecodeLoop(fields, st, rest) == None
  {
    hide DecodeVarint32;
    Varint32RoundTrip(0, rest);
    assert EncodeVarint(0) == [0];
  }
}
