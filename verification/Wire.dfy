/** The wire format of Protocol Buffers: varints, zigzag, fixed-width integers and tags. */
module Wire {
  import opened Basics

  function Pow2(n: nat): (p: nat)
    ensures p >= 1
  {
    if n == 0 then 1 else 2 * Pow2(n - 1)
  }

  lemma Pow2Add(n: nat, k: nat)
    ensures Pow2(n + k) == Pow2(n) * Pow2(k)
  {
    if k > 0 {
      Pow2Add(n, k - 1);
    }
  }

  lemma Pow2Grows(n: nat, m: nat)
    requires Pow2(n) < Pow2(m)
    ensures n < m
  {
    if m <= n {
      Pow2Monotone(m, n);
    }
  }

  lemma Pow2Monotone(m: nat, n: nat)
    requires m <= n
    ensures Pow2(m) <= Pow2(n)
  {
    Pow2Add(m, n - m);
    MulGrows(Pow2(m), Pow2(n - m));
  }

  lemma MulGrows(a: nat, b: nat)
    requires b >= 1
    ensures a * b >= a
  {
  }

  lemma Pow2Small()
    ensures Pow2(0) == 1 && Pow2(7) == 128 && Pow2(8) == 256
  {
  }

  lemma Pow2Is()
    ensures Pow2(0) == 1 && Pow2(7) == 128 && Pow2(8) == 256 && Pow2(32) == TWO32 && Pow2(64) == TWO64
  {
    hide Pow2;
    Pow2Small();
    Pow2Add(8, 8);
    Pow2Add(16, 16);
    Pow2Add(32, 32);
  }

  /** x << n, without a width. */
  function Shl(x: nat, n: nat): nat {
    MulGrows(x, Pow2(n));
    x * Pow2(n)
  }

  lemma SmallMod(x: int, m: nat)
    requires 0 <= x < m
    ensures x % m == x
  {
  }

  lemma NegativeMod(x: int, m: nat)
    requires m >= 1 && x < 0 <= x + m
    ensures x % m == x + m
  {
    SmallMod(x + m, m);
    SameResidue(x + m, -1, m);
  }

  // ---- varints ----

  /** Seven bits a byte, low bits first, the top bit set on all bytes but the last. */
  function EncodeVarint(v: nat): (r: seq<byte>)
    ensures |r| >= 1
  {
    if v < 128 then [v] else [v % 128 + 128] + EncodeVarint(v / 128)
  }

  /** A value and what follows it in the stream. */
  datatype Parsed<+T> = Parsed(value: T, rest: seq<byte>)

  /** The bits read so far are below bitpos, so adding the next ones is the bitwise or of the source. */
  function DecodeVarintFrom(s: seq<byte>, bitpos: nat, result: nat): (r: Option<Parsed<nat>>)
    requires result < TWO64
    ensures r.Some? ==> r.value.value < TWO64 && |r.value.rest| < |s|
    decreases |s|
  {
    if bitpos >= 64 || s == [] then None
    else
      var next := (result + Shl(s[0] % 128, bitpos)) % TWO64;
      if s[0] < 128 then Some(Parsed(next, s[1..])) else DecodeVarintFrom(s[1..], bitpos + 7, next)
  }

  function DecodeVarint(s: seq<byte>): (r: Option<Parsed<nat>>)
    ensures r.Some? ==> r.value.value < TWO64 && |r.value.rest| < |s|
  {
    DecodeVarintFrom(s, 0, 0)
  }

  /** The 32-bit decoder: bytes past the 32nd bit must be zero or the sign extension of a negative value. */
  function DecodeVarint32From(s: seq<byte>, bitpos: nat, result: nat): (r: Option<Parsed<nat>>)
    requires result < TWO32
    ensures r.Some? ==> r.value.value < TWO32 && |r.value.rest| < |s|
    decreases |s|
  {
    if s == [] then None
    else if bitpos >= 32 && s[0] % 128 != 0 && (result < 0x8000_0000 || s[0] != if bitpos < 63 then 0xFF else 0x01) then
      None
    else
      var next := if bitpos >= 32 then result else (result + Shl(s[0] % 128, bitpos)) % TWO32;
      if s[0] >= 128 then DecodeVarint32From(s[1..], bitpos + 7, next)
      else if bitpos + 7 == 35 && s[0] / 16 % 8 != 0 then None
      else Some(Parsed(next, s[1..]))
  }

  function DecodeVarint32(s: seq<byte>): (r: Option<Parsed<nat>>)
    ensures r.Some? ==> r.value.value < TWO32 && |r.value.rest| < |s|
  {
    if s == [] then None
    else if s[0] < 128 then Some(Parsed(s[0], s[1..]))
    else DecodeVarint32From(s[1..], 7, s[0] % 128)
  }

  /** One more byte of a varint: the low seven bits join the result, the rest of the value is shifted on. */
  lemma VarintStep(v: nat, bitpos: nat, result: nat, bits: nat)
    requires v >= 128 && result < Pow2(bitpos) && result + Shl(v, bitpos) < Pow2(bits)
    ensures var next := result + Shl(v % 128, bitpos);
            && next < Pow2(bitpos + 7) && next + Shl(v / 128, bitpos + 7) == result + Shl(v, bitpos)
    ensures bitpos + 7 < bits
  {
    hide Pow2;
    Pow2Is();
    Pow2Add(bitpos, 7);
    var p := Pow2(bitpos);
    Distribute(v / 128, v % 128, p);
    MulMonotone(v % 128, 127, p);
    MulGrows(p * 128, v / 128);
    Pow2Grows(bitpos + 7, bits);
  }

  lemma Distribute(hi: nat, lo: nat, p: nat)
    ensures (hi * 128 + lo) * p == hi * (p * 128) + lo * p
  {
  }

  lemma MulMonotone(a: nat, b: nat, p: nat)
    requires a <= b
    ensures a * p <= b * p
  {
  }

  lemma VarintHead(v: nat, rest: seq<byte>)
    ensures var s := EncodeVarint(v) + rest;
            && s != [] && s[0] % 128 == v % 128 && (s[0] < 128 <==> v < 128)
            && s[1..] == if v < 128 then rest else EncodeVarint(v / 128) + rest
  {
    var s := EncodeVarint(v) + rest;
    if v < 128 {
      assert s[1..] == rest;
    } else {
      assert s == [v % 128 + 128] + (EncodeVarint(v / 128) + rest);
      assert (v % 128 + 128) % 128 == v % 128;
    }
  }

  lemma {:induction false} VarintRoundTripFrom(v: nat, bitpos: nat, result: nat, rest: seq<byte>)
    requires result < Pow2(bitpos) && result + Shl(v, bitpos) < Pow2(64) && bitpos < 64 && result < TWO64
    ensures DecodeVarintFrom(EncodeVarint(v) + rest, bitpos, result)
              == Some(Parsed(result + Shl(v, bitpos), rest))
    decreases v
  {
    hide Pow2, Shl;
    Pow2Is();
    hide EncodeVarint;
    VarintHead(v, rest);
    if v >= 128 {
      VarintStep(v, bitpos, result, 64);
      VarintRoundTripFrom(v / 128, bitpos + 7, result + Shl(v % 128, bitpos), rest);
    }
  }

  lemma ShiftNothing(v: nat)
    ensures Shl(v, 0) == v
  {
  }

  /** Every 64-bit value comes back, whatever follows it. */
  lemma VarintRoundTrip(v: nat, rest: seq<byte>)
    requires v < TWO64
    ensures DecodeVarint(EncodeVarint(v) + rest) == Some(Parsed(v, rest))
  {
    hide Pow2;
    Pow2Is();
    ShiftNothing(v);
    VarintRoundTripFrom(v, 0, 0, rest);
  }

  /** The last byte of a 32-bit varint of five bytes has only four bits left. */
  lemma FourBitsLeft(v: nat)
    requires Shl(v, 28) < Pow2(32)
    ensures v < 16
  {
    assert Pow2(4) == 16;
    hide Pow2;
    Pow2Add(28, 4);
    if v >= 16 {
      MulMonotone(16, v, Pow2(28));
    }
  }

  lemma {:induction false} Varint32RoundTripFrom(v: nat, bitpos: nat, result: nat, rest: seq<byte>)
    requires result < Pow2(bitpos) && result + Shl(v, bitpos) < Pow2(32) && bitpos < 32 && bitpos % 7 == 0
    requires result < TWO32
    ensures DecodeVarint32From(EncodeVarint(v) + rest, bitpos, result)
              == Some(Parsed(result + Shl(v, bitpos), rest))
    decreases v
  {
    hide Pow2, Shl;
    Pow2Is();
    hide EncodeVarint;
    VarintHead(v, rest);
    if v < 128 {
      if bitpos == 28 {
        FourBitsLeft(v);
      }
    } else {
      VarintStep(v, bitpos, result, 32);
      Varint32RoundTripFrom(v / 128, bitpos + 7, result + Shl(v % 128, bitpos), rest);
    }
  }

  lemma Varint32RoundTrip(v: nat, rest: seq<byte>)
    requires v < TWO32
    ensures DecodeVarint32(EncodeVarint(v) + rest) == Some(Parsed(v, rest))
  {
    hide Pow2, Shl, EncodeVarint;
    VarintHead(v, rest);
    if v >= 128 {
      Pow2Is();
      ShiftNothing(v);
      ShiftNothing(v % 128);
      VarintStep(v, 0, 0, 32);
      Varint32RoundTripFrom(v / 128, 7, v % 128, rest);
    }
  }

  /** A 64-bit value takes at most ten bytes. */
  lemma {:induction false} VarintLength(v: nat, bits: nat)
    requires v < Pow2(7 * bits) && bits >= 1
    ensures |EncodeVarint(v)| <= bits
  {
    hide Pow2;
    Pow2Is();
    if v >= 128 {
      Pow2Add(7 * (bits - 1), 7);
      assert bits > 1;
      VarintLength(v / 128, bits - 1);
    }
  }

  // ---- signed integers ----

  function Unsigned(v: int, width: nat): (u: nat)
    ensures u < Pow2(8 * width)
  {
    assert 0 <= v % Pow2(8 * width) < Pow2(8 * width);
    v % Pow2(8 * width)
  }

  /** The two's complement reading of the low width bytes. */
  function Signed(v: int, width: nat): int {
    var u := Unsigned(v, width);
    if 2 * u < Pow2(8 * width) then u else u - Pow2(8 * width)
  }

  predicate InSigned(v: int, width: nat) {
    0 <= 2 * v + Pow2(8 * width) && 2 * v < Pow2(8 * width)
  }

  /** The source's ~((uint64_t)value << 1) for a negative value, and value << 1 otherwise. */
  function ZigZag(v: int): (z: nat)
    ensures z < TWO64
  {
    var shifted := v % TWO64 * 2 % TWO64;
    if v < 0 then TWO64 - 1 - shifted else shifted
  }

  function UnZigZag(z: nat): int
    requires z < TWO64
  {
    if z % 2 == 1 then -(z / 2) - 1 else z / 2
  }

  /** Zigzag numbers the integers 0, -1, 1, -2, and so on. */
  lemma ZigZagRoundTrip(v: int)
    requires InSigned(v, 8)
    ensures ZigZag(v) == if v < 0 then -2 * v - 1 else 2 * v
    ensures UnZigZag(ZigZag(v)) == v
  {
    hide Pow2;
    Pow2Is();
  }

  lemma SignedRoundTrip(v: int, width: nat)
    requires InSigned(v, width)
    ensures Signed(Unsigned(v, width), width) == v && Signed(v, width) == v
  {
    hide Pow2;
    var p := Pow2(8 * width);
    if v < 0 {
      NegativeMod(v, p);
      SmallMod(v + p, p);
    } else {
      SmallMod(v, p);
    }
  }

  /** The low bytes of a sign-extended value are the value in the narrower width. */
  lemma Narrow(v: int, width: nat)
    requires width <= 8 && InSigned(v, width)
    ensures InSigned(v, 8) && Unsigned(Unsigned(v, 8), width) == Unsigned(v, width)
  {
    hide Pow2;
    Pow2Add(8 * width, 8 * (8 - width));
    var p, q := Pow2(8 * width), Pow2(8 * (8 - width));
    MulGrows(p, q);
    Residue(v, p, q);
  }

  lemma Residue(v: int, p: nat, q: nat)
    requires p >= 1 && q >= 1
    ensures p * q >= 1 && v % (p * q) % p == v % p
  {
    MulGrows(p, q);
    var k, m := v / (p * q), v % (p * q);
    assert v == p * (q * k) + m by {
      assert v == p * q * k + m;
      Associate(p, q, k);
    }
    SameResidue(m, q * k, p);
  }

  lemma Associate(p: int, q: int, k: int)
    ensures p * q * k == p * (q * k)
  {
  }

  lemma SameResidue(m: int, k: int, p: nat)
    requires p >= 1
    ensures (p * k + m) % p == m % p
  {
    var d := (p * k + m) / p - m / p - k;
    var e := (p * k + m) % p - m % p;
    assert p * k + m == p * ((p * k + m) / p) + (p * k + m) % p;
    assert m == p * (m / p) + m % p;
    assert p * d + e == 0 by {
      Spread(p, (p * k + m) / p, m / p, k);
    }
    if d >= 1 {
      MulGrows(p, d);
    } else if d <= -1 {
      MulGrows(p, -d);
    }
  }

  lemma Spread(p: int, a: int, b: int, c: int)
    ensures p * (a - b - c) == p * a - p * b - p * c
  {
  }

  // ---- fixed-width integers ----

  function LittleEndian(v: nat, width: nat): (r: seq<byte>)
    ensures |r| == width
  {
    if width == 0 then [] else [v % 256] + LittleEndian(v / 256, width - 1)
  }

  function FromLittleEndian(s: seq<byte>): nat {
    if s == [] then 0 else s[0] + 256 * FromLittleEndian(s[1..])
  }

  lemma {:induction false} LittleEndianRoundTrip(v: nat, width: nat)
    requires v < Pow2(8 * width)
    ensures FromLittleEndian(LittleEndian(v, width)) == v
  {
    if width > 0 {
      hide Pow2;
      Pow2Is();
      Pow2Add(8 * (width - 1), 8);
      LittleEndianRoundTrip(v / 256, width - 1);
    }
  }

  /** v >> 8 * k. */
  function WithoutBytes(v: nat, k: nat): nat {
    if k == 0 then v else WithoutBytes(v / 256, k - 1)
  }

  /** Byte k holds the k-th eight bits, the lowest ones first. */
  lemma {:induction false} LittleEndianByte(v: nat, width: nat, k: nat)
    requires k < width
    ensures LittleEndian(v, width)[k] == WithoutBytes(v, k) % 256
  {
    if k > 0 {
      LittleEndianByte(v / 256, width - 1, k - 1);
    }
  }

  // ---- tags ----

  const WT_VARINT: nat := 0
  const WT_64BIT: nat := 1
  const WT_STRING: nat := 2
  const WT_32BIT: nat := 5

  function EncodeTag(tag: nat, wireType: nat): seq<byte> {
    EncodeVarint(tag * 8 + wireType)
  }

  /** A zero tag ends the message. */
  datatype TagRead = Tag(tag: nat, wireType: nat, rest: seq<byte>) | EndOfMessage(rest: seq<byte>) | BadTag

  function DecodeTag(s: seq<byte>): (r: TagRead)
    ensures r.Tag? || (r.EndOfMessage? && s != []) ==> |r.rest| < |s|
  {
    if s == [] then EndOfMessage(s)
    else
      match DecodeVarint32(s)
      case None => BadTag
      case Some(p) => if p.value == 0 then EndOfMessage(p.rest) else Tag(p.value / 8, p.value % 8, p.rest)
  }

  lemma TagRoundTrip(tag: nat, wireType: nat, rest: seq<byte>)
    requires 0 < tag < 0x2000_0000 && wireType < 8
    ensures DecodeTag(EncodeTag(tag, wireType) + rest) == Tag(tag, wireType, rest)
  {
    Varint32RoundTrip(tag * 8 + wireType, rest);
  }
}
