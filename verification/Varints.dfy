/** Varints digit by digit, and which byte strings the two varint readers accept. */
module Varints {
  import opened Basics
  import opened Wire
  import Coding

  /** The number whose base-128 digits, lowest first, are the low seven bits of the bytes. */
  function Digits(s: seq<byte>): nat {
    if s == [] then 0 else s[0] % 128 + 128 * Digits(s[1..])
  }

  /** A varint is written with as few bytes as its digits need, the top bit set on all but the last. */
  lemma {:induction false} VarintIs(v: nat)
    ensures var e := EncodeVarint(v);
            && Digits(e) == v && (forall i :: 0 <= i < |e| ==> (e[i] >= 128 <==> i < |e| - 1))
            && (|e| > 1 ==> e[|e| - 1] > 0)
    decreases v
  {
    if v >= 128 {
      VarintIs(v / 128);
      var rest := EncodeVarint(v / 128);
      assert EncodeVarint(v)[1..] == rest;
    }
  }

  /** A number of more than n times seven bits takes more than n bytes. */
  lemma {:induction false} VarintLonger(v: nat, n: nat)
    requires n >= 1 && v >= Pow2(7 * n)
    ensures |EncodeVarint(v)| > n
    decreases n
  {
    hide Pow2;
    Pow2Is();
    Pow2Add(7 * (n - 1), 7);
    if n > 1 {
      VarintLonger(v / 128, n - 1);
    }
  }

  /** The first byte below 128 ends a varint. */
  predicate EndsAt(s: seq<byte>, n: nat) {
    n < |s| && s[n] < 128 && forall i :: 0 <= i < n ==> s[i] >= 128
  }

  lemma TailEnds(s: seq<byte>, n: nat)
    requires EndsAt(s, n) && n > 0
    ensures EndsAt(s[1..], n - 1) && s[1..][n..] == s[n + 1..]
    ensures Digits(s[..n + 1]) == s[0] % 128 + 128 * Digits(s[1..][..n])
  {
    assert s[..n + 1][1..] == s[1..][..n];
  }

  lemma OnlyDigit(s: seq<byte>)
    requires s != []
    ensures Digits(s[..1]) == s[0] % 128
  {
    assert s[..1][1..] == [];
  }

  lemma ShlStep(result: nat, d: nat, more: nat, bitpos: nat)
    ensures ((result + Shl(d, bitpos)) % TWO64 + Shl(more, bitpos + 7)) % TWO64
            == (result + Shl(d + 128 * more, bitpos)) % TWO64
  {
    hide Pow2;
    Pow2Is();
    Pow2Add(bitpos, 7);
    var p := Pow2(bitpos);
    Distribute(more, d, p);
    var a := result + d * p;
    var q, r := a / TWO64, a % TWO64;
    assert a + more * (p * 128) == TWO64 * q + (r + more * (p * 128));
    SameResidue(r + more * (p * 128), q, TWO64);
  }

  lemma {:induction false} ReadsFrom(s: seq<byte>, n: nat, bitpos: nat, result: nat)
    requires EndsAt(s, n) && result < TWO64
    ensures DecodeVarintFrom(s, bitpos, result)
            == if bitpos + 7 * n < 64 then
                 Some(Parsed((result + Shl(Digits(s[..n + 1]), bitpos)) % TWO64, s[n + 1..]))
               else None
    decreases n
  {
    hide Shl;
    var d := s[0] % 128;
    var next := (result + Shl(d, bitpos)) % TWO64;
    OnlyDigit(s);
    if n > 0 {
      var t := s[1..];
      TailEnds(s, n);
      ShlStep(result, d, Digits(t[..n]), bitpos);
      ReadsFrom(t, n - 1, bitpos + 7, next);
    }
  }

  /** The reader takes any varint of at most ten bytes, however long-winded, and gives its low 64 bits. */
  lemma VarintRead(s: seq<byte>, n: nat)
    requires EndsAt(s, n)
    ensures DecodeVarint(s) == if n < 10 then Some(Parsed(Digits(s[..n + 1]) % TWO64, s[n + 1..])) else None
  {
    ReadsFrom(s, n, 0, 0);
    ShiftNothing(Digits(s[..n + 1]));
  }

  lemma {:induction false} UnfinishedFrom(s: seq<byte>, bitpos: nat, result: nat)
    requires result < TWO64 && forall i :: 0 <= i < |s| ==> s[i] >= 128
    ensures DecodeVarintFrom(s, bitpos, result) == None
    decreases |s|
  {
    hide Shl;
    if s != [] && bitpos < 64 {
      UnfinishedFrom(s[1..], bitpos + 7, (result + Shl(s[0] % 128, bitpos)) % TWO64);
    }
  }

  /** Without a last byte there is no varint. */
  lemma VarintUnfinished(s: seq<byte>)
    requires forall i :: 0 <= i < |s| ==> s[i] >= 128
    ensures DecodeVarint(s) == None
  {
    UnfinishedFrom(s, 0, 0);
  }

  // ---- the 32-bit reader ----

  lemma ShlStep32(result: nat, d: nat, more: nat, bitpos: nat)
    ensures ((result + Shl(d, bitpos)) % TWO32 + Shl(more, bitpos + 7)) % TWO32
            == (result + Shl(d + 128 * more, bitpos)) % TWO32
  {
    hide Pow2;
    Pow2Is();
    Pow2Add(bitpos, 7);
    var p := Pow2(bitpos);
    Distribute(more, d, p);
    var a := result + d * p;
    var q, r := a / TWO32, a % TWO32;
    assert a + more * (p * 128) == TWO32 * q + (r + more * (p * 128));
    SameResidue(r + more * (p * 128), q, TWO32);
  }

  /** Bits from the 32nd on do not reach the result. */
  lemma HighBitsLost(result: nat, x: nat, bitpos: nat)
    requires result < TWO32 && bitpos >= 32
    ensures (result + Shl(x, bitpos)) % TWO32 == result
  {
    hide Pow2;
    Pow2Is();
    Pow2Add(32, bitpos - 32);
    assert Shl(x, bitpos) == TWO32 * (Pow2(bitpos - 32) * x);
    SameResidue(result, Pow2(bitpos - 32) * x, TWO32);
    SmallMod(result, TWO32);
  }

  /** A byte from the 35th bit on that the reader lets pass. */
  predicate SignByte(b: byte, bitpos: nat, v: nat) {
    b % 128 == 0 || (v >= 0x8000_0000 && b == if bitpos < 63 then 0xFF else 0x01)
  }

  /** Each byte from the 35th bit on is zero, or the value is negative and the byte extends its sign; and if the fifth
      byte is the last, its bits above the 32nd are zero. */
  predicate Extends(s: seq<byte>, n: nat, bitpos: nat, v: nat)
    requires n < |s|
  {
    && (forall k :: 0 <= k <= n && bitpos + 7 * k >= 35 ==>
          SignByte(s[k], bitpos + 7 * k, v))
    && (bitpos + 7 * n == 28 ==> s[n] < 16)
  }

  lemma ExtendsNext(s: seq<byte>, n: nat, bitpos: nat, v: nat)
    requires 0 < n < |s|
    ensures Extends(s, n, bitpos, v) <==>
              (bitpos >= 35 ==> SignByte(s[0], bitpos, v)) && Extends(s[1..], n - 1, bitpos + 7, v)
  {
    var t := s[1..];
    if Extends(s, n, bitpos, v) {
      forall k | 0 <= k <= n - 1 && bitpos + 7 + 7 * k >= 35
        ensures SignByte(t[k], bitpos + 7 + 7 * k, v)
      {
        assert t[k] == s[k + 1] && bitpos + 7 * (k + 1) == bitpos + 7 + 7 * k;
      }
    }
    if Extends(t, n - 1, bitpos + 7, v) {
      forall k | 0 < k <= n && bitpos + 7 * k >= 35
        ensures SignByte(s[k], bitpos + 7 * k, v)
      {
        assert t[k - 1] == s[k] && bitpos + 7 * k == bitpos + 7 + 7 * (k - 1);
      }
    }
  }

  function Value32(s: seq<byte>, n: nat, bitpos: nat, result: nat): nat
    requires n < |s|
  {
    (result + Shl(Digits(s[..n + 1]), bitpos)) % TWO32
  }

  /** The result after the next seven bits. */
  function Next32(b: byte, bitpos: nat, result: nat): nat {
    if bitpos >= 32 then result else (result + Shl(b % 128, bitpos)) % TWO32
  }

  lemma ValueNext(s: seq<byte>, n: nat, bitpos: nat, result: nat)
    requires EndsAt(s, n) && result < TWO32
    ensures n == 0 ==> Value32(s, n, bitpos, result) == Next32(s[0], bitpos, result)
    ensures n > 0 ==> Value32(s, n, bitpos, result) == Value32(s[1..], n - 1, bitpos + 7, Next32(s[0], bitpos, result))
    ensures bitpos >= 32 ==> Value32(s, n, bitpos, result) == result
  {
    hide Shl, Digits;
    var d := s[0] % 128;
    if bitpos >= 32 {
      HighBitsLost(result, Digits(s[..n + 1]), bitpos);
    }
    if n == 0 {
      OnlyDigit(s);
    } else {
      var t := s[1..];
      TailEnds(s, n);
      ShlStep32(result, d, Digits(t[..n]), bitpos);
      if bitpos >= 32 {
        HighBitsLost(result, Digits(t[..n]), bitpos + 7);
      }
    }
  }

  lemma NextFits(b: byte, bitpos: nat, result: nat)
    requires result < TWO32
    ensures Next32(b, bitpos, result) < TWO32
  {
  }

  lemma Step32(s: seq<byte>, bitpos: nat, result: nat)
    requires s != [] && result < TWO32 && bitpos % 7 == 0
    ensures var next := Next32(s[0], bitpos, result);
            DecodeVarint32From(s, bitpos, result)
            == if bitpos >= 35 && !SignByte(s[0], bitpos, result) then None
               else if s[0] >= 128 then DecodeVarint32From(s[1..], bitpos + 7, next)
               else if bitpos == 28 && s[0] >= 16 then None
               else Some(Parsed(next, s[1..]))
  {
    hide Shl;
  }

  lemma {:induction false} Reads32From(s: seq<byte>, n: nat, bitpos: nat, result: nat)
    requires EndsAt(s, n) && result < TWO32 && bitpos % 7 == 0
    ensures var v := Value32(s, n, bitpos, result);
            DecodeVarint32From(s, bitpos, result)
            == if Extends(s, n, bitpos, v) then Some(Parsed(v, s[n + 1..])) else None
    decreases n
  {
    FirstByte(s, n);
    Step32(s, bitpos, result);
    NextFits(s[0], bitpos, result);
    hide *;
    var v := Value32(s, n, bitpos, result);
    ValueNext(s, n, bitpos, result);
    if n == 0 {
      ExtendsLast(s, bitpos, v);
    } else {
      TailEnds(s, n);
      ExtendsNext(s, n, bitpos, v);
      Reads32From(s[1..], n - 1, bitpos + 7, Next32(s[0], bitpos, result));
    }
  }

  lemma FirstByte(s: seq<byte>, n: nat)
    requires EndsAt(s, n)
    ensures s != [] && n < |s| && (s[0] < 128 <==> n == 0)
  {
  }

  lemma ExtendsLast(s: seq<byte>, bitpos: nat, v: nat)
    requires s != [] && s[0] < 128
    ensures Extends(s, 0, bitpos, v) <==>
              (bitpos >= 35 ==> SignByte(s[0], bitpos, v)) && (bitpos == 28 ==> s[0] < 16)
  {
  }

  /** The 32-bit reader takes a varint exactly if what lies beyond 32 bits is zero or extends the sign, and gives its
      low 32 bits. (Of the fifth byte only the last one's upper bits are looked at.) */
  lemma Varint32Read(s: seq<byte>, n: nat)
    requires EndsAt(s, n)
    ensures var v := Digits(s[..n + 1]) % TWO32;
            DecodeVarint32(s) == if Extends(s, n, 0, v) then Some(Parsed(v, s[n + 1..])) else None
  {
    FirstByte(s, n);
    StartValue(s, n);
    hide Shl, Extends, EndsAt, Digits, DecodeVarint32From, Value32, Next32, SignByte;
    var v := Digits(s[..n + 1]) % TWO32;
    ValueNext(s, n, 0, 0);
    if n == 0 {
      OnlyDigit(s);
      ExtendsLast(s, 0, v);
    } else {
      TailEnds(s, n);
      ExtendsNext(s, n, 0, v);
      Reads32From(s[1..], n - 1, 7, s[0] % 128);
    }
  }

  lemma StartValue(s: seq<byte>, n: nat)
    requires n < |s|
    ensures Value32(s, n, 0, 0) == Digits(s[..n + 1]) % TWO32 && Next32(s[0], 0, 0) == s[0] % 128
  {
    hide Digits;
    ShiftNothing(Digits(s[..n + 1]));
    ShiftNothing(s[0] % 128);
  }

  // ---- the reader of the store's files ----

  lemma {:induction false} ShortReadsFrom(s: seq<byte>, n: nat, shift: nat, result: nat)
    requires EndsAt(s, n) && result < TWO32
    ensures Coding.GetVarint32From(s, shift, result)
            == if shift + 7 * n <= 28 then Some(Parsed(Value32(s, n, shift, result), s[n + 1..])) else None
    decreases n
  {
    FirstByte(s, n);
    hide Shl, EndsAt, Digits;
    OnlyDigit(s);
    if n > 0 {
      TailEnds(s, n);
      ShlStep32(result, s[0] % 128, Digits(s[1..][..n]), shift);
      ShortReadsFrom(s[1..], n - 1, shift + 7, (result + Shl(s[0] % 128, shift)) % TWO32);
    }
  }

  /** The reader takes varints of at most five bytes and gives their low 32 bits. */
  lemma ShortVarintRead(s: seq<byte>, n: nat)
    requires EndsAt(s, n)
    ensures Coding.GetVarint32(s) == if n < 5 then Some(Parsed(Digits(s[..n + 1]) % TWO32, s[n + 1..])) else None
  {
    ShortReadsFrom(s, n, 0, 0);
    ShiftNothing(Digits(s[..n + 1]));
  }
}
