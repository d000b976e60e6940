/** The Bloom filter policy. */
module Blooms {
  import opened Basics
  import Wire

  type Key = seq<byte>

  /** A 32-bit hash of keys; the model holds for every such function. */
  type Hash = Key -> uint32

  // ---- bits of bytes ----

  function Bit(b: nat, k: nat): bool {
    if k == 0 then b % 2 == 1 else Bit(b / 2, k - 1)
  }

  /** b | 1 << k, for a number of n bits. */
  function SetBit(b: nat, k: nat, n: nat): (r: nat)
    requires k < n && b < Wire.Pow2(n)
    ensures r < Wire.Pow2(n)
  {
    if k == 0 then (if b % 2 == 1 then b else b + 1) else b % 2 + 2 * SetBit(b / 2, k - 1, n - 1)
  }

  lemma {:induction false} SetBitIs(b: nat, k: nat, n: nat, j: nat)
    requires k < n && b < Wire.Pow2(n)
    ensures Bit(SetBit(b, k, n), j) <==> j == k || Bit(b, j)
  {
    if k > 0 && j > 0 {
      SetBitIs(b / 2, k - 1, n - 1, j - 1);
    }
  }

  lemma {:induction false} ZeroHasNoBit(k: nat)
    ensures !Bit(0, k)
  {
    if k > 0 {
      ZeroHasNoBit(k - 1);
    }
  }

  predicate HasBit(a: seq<byte>, pos: nat)
    requires pos < 8 * |a|
  {
    Bit(a[pos / 8], pos % 8)
  }

  function WithBit(a: seq<byte>, pos: nat): (r: seq<byte>)
    requires pos < 8 * |a|
    ensures |r| == |a|
  {
    Wire.Pow2Small();
    a[pos / 8 := SetBit(a[pos / 8], pos % 8, 8)]
  }

  lemma WithBitIs(a: seq<byte>, pos: nat, other: nat)
    requires pos < 8 * |a| && other < 8 * |a|
    ensures HasBit(WithBit(a, pos), other) <==> other == pos || HasBit(a, other)
  {
    Wire.Pow2Small();
    if pos / 8 == other / 8 {
      SetBitIs(a[pos / 8], pos % 8, 8, other % 8);
    }
  }

  // ---- probes ----

  /** Rotate right 17 bits. */
  function Delta(h: uint32): uint32 {
    h / 0x2_0000 + h % 0x2_0000 * 0x8000
  }

  /** The j-th hash of the double hashing, in 32 bits. */
  function Probe(h: uint32, j: nat): uint32 {
    if j == 0 then h else (Probe(h, j - 1) + Delta(h)) % TWO32
  }

  /** The low n bits of a sum of a multiple of 2^n and something below it are that something's. */
  lemma {:induction false} BitOfJoined(hi: nat, lo: nat, n: nat, k: nat)
    requires lo < Wire.Pow2(n)
    ensures Bit(hi * Wire.Pow2(n) + lo, k) == if k < n then Bit(lo, k) else Bit(hi, k - n)
  {
    if n == 0 {
      assert hi * Wire.Pow2(0) == hi;
    } else {
      var p := Wire.Pow2(n - 1);
      var b := hi * Wire.Pow2(n) + lo;
      assert b == 2 * (hi * p) + lo;
      assert b % 2 == lo % 2 && b / 2 == hi * p + lo / 2;
      if k > 0 {
        BitOfJoined(hi, lo / 2, n - 1, k - 1);
      } else {
        assert Bit(lo, 0) == (lo % 2 == 1);
      }
    }
  }

  /** The increment of the double hashing is the hash rotated right by 17 bits. */
  lemma DeltaIsRotation(h: uint32, k: nat)
    requires k < 32
    ensures Bit(Delta(h), k) == Bit(h, (k + 17) % 32)
  {
    hide Bit;
    Powers();
    var hi, lo := h / 0x2_0000, h % 0x2_0000;
    assert Delta(h) == lo * Wire.Pow2(15) + hi;
    BitOfJoined(lo, hi, 15, k);
    if k < 15 {
      BitOfJoined(hi, lo, 17, k + 17);
    } else {
      BitOfJoined(hi, lo, 17, k - 15);
    }
  }

  lemma Powers()
    ensures Wire.Pow2(15) == 0x8000 && Wire.Pow2(17) == 0x2_0000
  {
    hide Wire.Pow2;
    Wire.Pow2Small();
    Wire.Pow2Add(8, 7);
    Wire.Pow2Add(8, 8);
    Wire.Pow2Add(16, 1);
    PowerOne();
  }

  lemma PowerOne()
    ensures Wire.Pow2(1) == 2
  {
  }

  /** The j-th probe is j increments away from the first, in 32 bits. */
  lemma {:induction false} ProbeIs(h: uint32, j: nat)
    ensures Probe(h, j) == (h + j * Delta(h)) % TWO32
  {
    hide Delta;
    if j > 0 {
      ProbeIs(h, j - 1);
      OneMore(j, Delta(h));
      AddMod(h + (j - 1) * Delta(h), Delta(h));
    }
  }

  lemma OneMore(j: nat, d: nat)
    requires j > 0
    ensures 0 <= (j - 1) * d && j * d == (j - 1) * d + d
  {
  }

  lemma AddMod(a: nat, d: nat)
    ensures (a % TWO32 + d) % TWO32 == (a + d) % TWO32
  {
  }

  /** The first n probes of the key are set. */
  predicate Probed(hash: Hash, key: Key, a: seq<byte>, n: nat)
    requires |a| > 0
  {
    forall j :: 0 <= j < n ==> HasBit(a, Probe(hash(key), j) % (8 * |a|))
  }

  /** What KeyMayMatch answers: a filter too short matches nothing, one with more than 30 probes everything. */
  predicate Matches(hash: Hash, key: Key, filter: seq<byte>) {
    var n := |filter|;
    n >= 2 && (filter[n - 1] <= 30 ==> Probed(hash, key, filter[..n - 1], filter[n - 1]))
  }

  method KeyMayMatch(hash: Hash, key: Key, filter: seq<byte>) returns (r: bool)
    ensures r == Matches(hash, key, filter)
  {
    var n := |filter|;
    if n < 2 {
      return false;
    }
    var a, k := filter[..n - 1], filter[n - 1];
    if k > 30 {
      return true;
    }
    var bits := (n - 1) * 8;
    var h := hash(key);
    for j := 0 to k
      invariant h == Probe(hash(key), j) && Probed(hash, key, a, j)
    {
      if !HasBit(a, h % bits) {
        return false;
      }
      h := (h + Delta(hash(key))) % TWO32;
    }
    r := true;
  }

  lemma BitKeepsProbed(hash: Hash, key: Key, a: seq<byte>, n: nat, pos: nat)
    requires |a| > 0 && pos < 8 * |a| && Probed(hash, key, a, n)
    ensures Probed(hash, key, WithBit(a, pos), n)
  {
    forall j | 0 <= j < n
      ensures HasBit(WithBit(a, pos), Probe(hash(key), j) % (8 * |a|))
    {
      WithBitIs(a, pos, Probe(hash(key), j) % (8 * |a|));
    }
  }

  /** The position that the j-th probe of the key asks for. */
  function ProbeAt(hash: Hash, key: Key, j: nat, bits: nat): nat
    requires bits > 0
  {
    Probe(hash(key), j) % bits
  }

  /** Some probe of one of the keys asks for this position. */
  predicate Asked(hash: Hash, k: nat, keys: set<Key>, bits: nat, pos: nat)
    requires bits > 0
  {
    exists key :: key in keys && AskedBy(hash, k, key, bits, pos)
  }

  predicate AskedBy(hash: Hash, k: nat, key: Key, bits: nat, pos: nat)
    requires bits > 0
  {
    exists j :: 0 <= j < k && ProbeAt(hash, key, j, bits) == pos
  }

  function Members(keys: seq<Key>): set<Key> {
    set key | key in keys
  }

  /** The bits set are exactly those that the keys ask for. */
  ghost predicate ExactBits(hash: Hash, k: nat, a: seq<byte>, keys: set<Key>) {
    forall pos: nat :: pos < 8 * |a| ==> (HasBit(a, pos) <==> Asked(hash, k, keys, 8 * |a|, pos))
  }

  /** Sets the probes of one key, unsets none and sets no other. */
  method AddKey(hash: Hash, key: Key, a: seq<byte>, k: nat) returns (r: seq<byte>)
    requires |a| > 0
    ensures |r| == |a| && Probed(hash, key, r, k)
    ensures forall pos: nat :: pos < 8 * |a| ==>
              (HasBit(r, pos) <==> HasBit(a, pos) || AskedBy(hash, k, key, 8 * |a|, pos))
  {
    r := a;
    var h := hash(key);
    for j := 0 to k
      invariant |r| == |a| && h == Probe(hash(key), j) && Probed(hash, key, r, j)
      invariant forall pos: nat :: pos < 8 * |a| ==>
                  (HasBit(r, pos) <==> HasBit(a, pos) || AskedBy(hash, j, key, 8 * |a|, pos))
    {
      var bitpos := h % (8 * |r|);
      BitKeepsProbed(hash, key, r, j, bitpos);
      WithBitIs(r, bitpos, bitpos);
      assert bitpos == ProbeAt(hash, key, j, 8 * |a|);
      forall pos: nat | pos < 8 * |a|
        ensures HasBit(WithBit(r, bitpos), pos) <==> pos == bitpos || HasBit(r, pos)
      {
        WithBitIs(r, bitpos, pos);
      }
      r := WithBit(r, bitpos);
      h := (h + Delta(hash(key))) % TWO32;
    }
  }

  /** Appends a filter that every one of the keys matches. k is the number of probes the policy derives from
      bitsPerKey, between 1 and 30. */
  method CreateFilter(hash: Hash, bitsPerKey: nat, k: nat, keys: seq<Key>, dst: seq<byte>) returns (r: seq<byte>)
    requires 1 <= k <= 30
    ensures dst <= r && forall key :: key in keys ==> Matches(hash, key, r[|dst|..])
    ensures var filter := r[|dst|..];
            var bytes := |filter| - 1;
            && bytes == ((if |keys| * bitsPerKey < 64 then 64 else |keys| * bitsPerKey) + 7) / 8 && filter[bytes] == k
            && ExactBits(hash, k, filter[..bytes], Members(keys))
  {
    var bits := |keys| * bitsPerKey;
    if bits < 64 {
      bits := 64;
    }
    var bytes := (bits + 7) / 8;
    var a := seq(bytes, _ => 0);
    forall pos: nat | pos < 8 * bytes
      ensures !HasBit(a, pos)
    {
      ZeroHasNoBit(pos % 8);
    }
    for i := 0 to |keys|
      invariant |a| == bytes && forall m :: 0 <= m < i ==> Probed(hash, keys[m], a, k)
      invariant ExactBits(hash, k, a, Members(keys[..i]))
    {
      var b := AddKey(hash, keys[i], a, k);
      assert keys[..i + 1] == keys[..i] + [keys[i]];
      assert Members(keys[..i + 1]) == Members(keys[..i]) + {keys[i]};
      forall m | 0 <= m < i
        ensures Probed(hash, keys[m], b, k)
      {
        assert Probed(hash, keys[m], a, k);
      }
      a := b;
    }
    assert keys[..|keys|] == keys;
    var filter := a + [k];
    r := dst + filter;
    assert r[|dst|..] == filter && filter[..|filter| - 1] == a;
  }
}
