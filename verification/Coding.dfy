/** Fixed-width words and varints as the store's files use them. */
module Coding {
  import opened Basics
  import Wire

  function Fixed32(w: uint32): (r: seq<byte>)
    ensures |r| == 4
  {
    [w % 256, w / 256 % 256, w / 0x1_0000 % 256, w / 0x100_0000]
  }

  function DecodeFixed32(s: seq<byte>): uint32
    requires |s| >= 4
  {
    s[0] as int + s[1] as int * 256 + s[2] as int * 0x1_0000 + s[3] as int * 0x100_0000
  }

  lemma DecodeEncodeFixed32(w: uint32)
    ensures DecodeFixed32(Fixed32(w)) == w
  {
    var a, b := w / 256, w / 0x1_0000;
    assert b == a / 256 && w / 0x100_0000 == b / 256;
    assert w == a * 256 + w % 256 && a == b * 256 + a % 256 && b == b / 256 * 256 + b % 256;
  }

  /** The four bytes of a word, lowest first. */
  lemma Fixed32Is(w: uint32)
    ensures var b := Fixed32(w);
            b[0] == w % 256 && b[1] == w / 256 % 256 && b[2] == w / 65536 % 256 && b[3] == w / 16777216
  {
  }

  // ---- arrays of words ----

  /** The word at an offset. */
  function WordAt(contents: seq<byte>, at: nat): nat
    requires at + 4 <= |contents|
  {
    DecodeFixed32(contents[at..])
  }

  function EncodeWords(words: seq<nat>): (r: seq<byte>)
    ensures |r| == 4 * |words|
  {
    if words == [] then []
    else EncodeWords(words[..|words| - 1]) + Fixed32(words[|words| - 1] % TWO32)
  }

  lemma {:induction false} WordsBack(words: seq<nat>, i: nat, more: seq<byte>)
    requires i < |words| && words[i] < TWO32
    ensures WordAt(EncodeWords(words) + more, 4 * i) == words[i]
  {
    hide Fixed32, WordAt;
    var n := |words| - 1;
    var front, last := EncodeWords(words[..n]), Fixed32(words[n] % TWO32);
    RegroupFour(front, last, [], more);
    assert last + [] + more == last + more && front + last + [] + more == front + last + more;
    if i < n {
      WordsBack(words[..n], i, last + more);
    } else {
      WordSkips(front, last + more, 0);
      FixedBack(words[n], more);
    }
  }

  lemma FixedBack(v: nat, more: seq<byte>)
    requires v < TWO32
    ensures WordAt(Fixed32(v) + more, 0) == v
  {
    DecodeEncodeFixed32(v);
    var s := (Fixed32(v) + more)[0..];
    assert forall i :: 0 <= i < 4 ==> s[i] == Fixed32(v)[i];
  }

  lemma WordsLast(words: seq<nat>, last: nat)
    requires last < TWO32
    ensures EncodeWords(words + [last]) == EncodeWords(words) + Fixed32(last)
  {
    hide Fixed32;
    assert (words + [last])[..|words|] == words;
  }

  method AppendWords(result: seq<byte>, words: seq<nat>) returns (contents: seq<byte>)
    ensures contents == result + EncodeWords(words)
  {
    contents := result;
    for i := 0 to |words|
      invariant contents == result + EncodeWords(words[..i])
    {
      contents := contents + Fixed32(words[i] % TWO32);
      assert words[..i + 1][..i] == words[..i];
    }
    assert words[..|words|] == words;
  }

  lemma RegroupFour(a: seq<byte>, b: seq<byte>, c: seq<byte>, d: seq<byte>)
    ensures a + b + c + d == a + (b + c + d)
  {
  }

  lemma WordSkips(a: seq<byte>, b: seq<byte>, at: nat)
    requires at + 4 <= |b|
    ensures WordAt(a + b, |a| + at) == WordAt(b, at)
  {
    assert (a + b)[|a| + at..] == b[at..];
  }

  /** A word of an array that lies between other bytes. */
  lemma WordInside(data: seq<byte>, words: seq<nat>, tail: seq<byte>, i: nat)
    requires i < |words| && words[i] < TWO32
    ensures WordAt(data + EncodeWords(words) + tail, |data| + 4 * i) == words[i]
  {
    hide EncodeWords, WordAt;
    WordsBack(words, i, tail);
    WordSkips(data, EncodeWords(words) + tail, 4 * i);
    assert data + EncodeWords(words) + tail == data + (EncodeWords(words) + tail);
  }

  // ---- varints ----

  function GetVarint32From(s: seq<byte>, shift: nat, result: nat): (r: Option<Wire.Parsed<nat>>)
    requires result < TWO32
    ensures r.Some? ==> r.value.value < TWO32 && |r.value.rest| < |s|
    decreases |s|
  {
    if shift > 28 || s == [] then None
    else
      var next := (result + Wire.Shl(s[0] % 128, shift)) % TWO32;
      if s[0] < 128 then Some(Wire.Parsed(next, s[1..])) else GetVarint32From(s[1..], shift + 7, next)
  }

  /** GetVarint32Ptr; unlike the Protocol Buffers decoder it takes no more than five bytes. */
  function GetVarint32(s: seq<byte>): (r: Option<Wire.Parsed<nat>>)
    ensures r.Some? ==> r.value.value < TWO32 && |r.value.rest| < |s|
  {
    GetVarint32From(s, 0, 0)
  }

  lemma {:induction false} GetPutVarint32From(v: nat, shift: nat, result: nat, rest: seq<byte>)
    requires result < Wire.Pow2(shift) && result + Wire.Shl(v, shift) < Wire.Pow2(32) && result < TWO32
    requires shift <= 28 && shift % 7 == 0
    ensures GetVarint32From(Wire.EncodeVarint(v) + rest, shift, result)
              == Some(Wire.Parsed(result + Wire.Shl(v, shift), rest))
    decreases v
  {
    hide Wire.Pow2, Wire.Shl, Wire.EncodeVarint;
    Wire.Pow2Is();
    Wire.VarintHead(v, rest);
    if v >= 128 {
      Wire.VarintStep(v, shift, result, 32);
      GetPutVarint32From(v / 128, shift + 7, result + Wire.Shl(v % 128, shift), rest);
    }
  }

  lemma GetPutVarint32(v: nat, rest: seq<byte>)
    requires v < TWO32
    ensures GetVarint32(Wire.EncodeVarint(v) + rest) == Some(Wire.Parsed(v, rest))
  {
    hide Wire.Pow2;
    Wire.Pow2Is();
    Wire.ShiftNothing(v);
    GetPutVarint32From(v, 0, 0, rest);
  }

  // ---- length-prefixed strings ----

  /** PutLengthPrefixedSlice: the length, cut to 32 bits, then the bytes. */
  function PutSlice(b: seq<byte>): (r: seq<byte>)
    ensures |r| > |b|
  {
    Wire.EncodeVarint(|b| % TWO32) + b
  }

  function GetSlice(s: seq<byte>): (r: Option<Wire.Parsed<seq<byte>>>)
    ensures r.Some? ==> |r.value.rest| < |s|
  {
    var n := GetVarint32(s);
    if n.None? || |n.value.rest| < n.value.value then None
    else Some(Wire.Parsed(n.value.rest[..n.value.value], n.value.rest[n.value.value..]))
  }

  lemma GetPutSlice(b: seq<byte>, rest: seq<byte>)
    requires |b| < TWO32
    ensures GetSlice(PutSlice(b) + rest) == Some(Wire.Parsed(b, rest))
  {
    hide Wire.EncodeVarint, GetVarint32;
    GetPutVarint32(|b|, b + rest);
    assert PutSlice(b) + rest == Wire.EncodeVarint(|b|) + (b + rest);
    assert (b + rest)[..|b|] == b && (b + rest)[|b|..] == rest;
  }

  /** A string cut short is refused. */
  lemma SliceCutShort(n: nat, rest: seq<byte>)
    requires |rest| < n < TWO32
    ensures GetSlice(Wire.EncodeVarint(n) + rest) == None
  {
    hide Wire.EncodeVarint, GetVarint32;
    GetPutVarint32(n, rest);
  }
}
