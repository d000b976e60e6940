/** The write-ahead log as bytes: blocks, physical records, and the fragments of a logical record. */
module LogFormat {
  import opened Basics
  import opened Coding

  const BLOCK_SIZE: nat := 32768
  const HEADER_SIZE: nat := 7

  const ZERO_TYPE: nat := 0
  const FULL_TYPE: nat := 1
  const FIRST_TYPE: nat := 2
  const MIDDLE_TYPE: nat := 3
  const LAST_TYPE: nat := 4

  /** The checksum of a byte string; the model holds for every such function. */
  type Checksum = seq<byte> -> uint32

  // ---- stored checksums ----

  const MASK_DELTA: uint32 := 0xa282ead8

  /** Rotate right by 15 bits, then add a constant, in 32 bits. */
  function Mask(crc: uint32): uint32 {
    (crc / 0x8000 + crc % 0x8000 * 0x2_0000 + MASK_DELTA) % 0x1_0000_0000
  }

  function Unmask(masked: uint32): uint32 {
    var rot := (masked - MASK_DELTA) % 0x1_0000_0000;
    rot / 0x2_0000 + rot % 0x2_0000 * 0x8000
  }

  lemma UnmaskMask(crc: uint32)
    ensures Unmask(Mask(crc)) == crc
  {
    var hi, lo := crc / 0x8000, crc % 0x8000;
    var rot := hi + lo * 0x2_0000;
    assert (Mask(crc) - MASK_DELTA) % 0x1_0000_0000 == rot;
    assert rot / 0x2_0000 == lo && rot % 0x2_0000 == hi;
  }

  // ---- physical records ----

  datatype Fragment = Fragment(kind: byte, data: seq<byte>)

  predicate FragmentOk(f: Fragment) {
    FULL_TYPE <= f.kind <= LAST_TYPE && |f.data| <= BLOCK_SIZE - HEADER_SIZE
  }

  /** Header (masked checksum of type and payload, length, type), then the payload. */
  function Physical(crc: Checksum, f: Fragment): (r: seq<byte>)
    requires FragmentOk(f)
    ensures |r| == HEADER_SIZE + |f.data|
  {
    Fixed32(Mask(crc([f.kind] + f.data))) + [|f.data| % 256, |f.data| / 256, f.kind] + f.data
  }

  /** A record on disk: the checksum of type and payload, rotated right by 15 bits and shifted by a constant, in four
      bytes, the length in two, the type in one, and the payload, which leaves room for seven bytes in 32 KB. */
  lemma RecordBytesAre(crc: Checksum, f: Fragment)
    requires FragmentOk(f)
    ensures var r, c := Physical(crc, f), crc([f.kind] + f.data);
            var masked := (c / 32768 + c % 32768 * 131072 + 0xa282ead8) % 0x1_0000_0000;
            && 1 <= f.kind <= 4 && |f.data| <= 32761 && |r| == 7 + |f.data|
            && r[..4] == Fixed32(masked) && r[4] as int + 256 * r[5] as int == |f.data|
            && r[6] == f.kind && r[7..] == f.data
  {
    hide Fixed32;
  }

  /** A record that would need another block is cut: 1 says whole, 2 first, 3 middle and 4 last. */
  lemma TypesAre(begin: bool, end: bool)
    ensures TypeOf(begin, end) == if begin then (if end then 1 else 2) else if end then 4 else 3
  {
  }

  /** The trailer left unused because a header no longer fits into the block. */
  function PadLength(offset: nat): (n: nat)
    ensures n < HEADER_SIZE
    ensures (offset + n) % BLOCK_SIZE + HEADER_SIZE <= BLOCK_SIZE
  {
    if BLOCK_SIZE - offset % BLOCK_SIZE < HEADER_SIZE then BLOCK_SIZE - offset % BLOCK_SIZE else 0
  }

  function Zeros(n: nat): (r: seq<byte>)
    ensures |r| == n
  {
    seq(n, _ => 0)
  }

  /** Where the record after f starts if the previous one ended at offset. */
  function After(offset: nat, f: Fragment): nat {
    offset + PadLength(offset) + HEADER_SIZE + |f.data|
  }

  /** f stays within the block it starts in. */
  predicate Fits(offset: nat, f: Fragment) {
    FragmentOk(f) && (offset + PadLength(offset)) % BLOCK_SIZE + HEADER_SIZE + |f.data| <= BLOCK_SIZE
  }

  predicate AllFit(offset: nat, frags: seq<Fragment>)
    decreases |frags|
  {
    |frags| == 0 || (Fits(offset, frags[0]) && AllFit(After(offset, frags[0]), frags[1..]))
  }

  /** The bytes of consecutive physical records, the first one written at the given file offset. */
  function Layout(crc: Checksum, offset: nat, frags: seq<Fragment>): seq<byte>
    requires AllFit(offset, frags)
    decreases |frags|
  {
    if |frags| == 0 then []
    else Zeros(PadLength(offset)) + Physical(crc, frags[0]) + Layout(crc, After(offset, frags[0]), frags[1..])
  }

  function EndOffset(offset: nat, frags: seq<Fragment>): nat
    decreases |frags|
  {
    if |frags| == 0 then offset else EndOffset(After(offset, frags[0]), frags[1..])
  }

  lemma {:induction false} FitSplit(offset: nat, a: seq<Fragment>, b: seq<Fragment>)
    requires AllFit(offset, a + b)
    ensures AllFit(offset, a) && AllFit(EndOffset(offset, a), b)
    ensures EndOffset(offset, a) >= offset && EndOffset(EndOffset(offset, a), b) == EndOffset(offset, a + b)
    decreases |a|
  {
    if |a| == 0 {
      assert a + b == b;
    } else {
      assert (a + b)[1..] == a[1..] + b;
      FitSplit(After(offset, a[0]), a[1..], b);
    }
  }

  lemma {:induction false} LayoutLength(crc: Checksum, offset: nat, a: seq<Fragment>)
    requires AllFit(offset, a)
    ensures |Layout(crc, offset, a)| == EndOffset(offset, a) - offset
    decreases |a|
  {
    if |a| > 0 {
      LayoutLength(crc, After(offset, a[0]), a[1..]);
    }
  }

  lemma LayoutHead(crc: Checksum, offset: nat, a: seq<Fragment>)
    requires AllFit(offset, a) && |a| > 0
    ensures FragmentOk(a[0]) && AllFit(After(offset, a[0]), a[1..])
    ensures Layout(crc, offset, a)
              == Zeros(PadLength(offset)) + Physical(crc, a[0]) + Layout(crc, After(offset, a[0]), a[1..])
  {
    hide Physical, Zeros, PadLength;
  }

  lemma {:induction false} LayoutSplit(crc: Checksum, offset: nat, a: seq<Fragment>, b: seq<Fragment>)
    requires AllFit(offset, a + b)
    ensures AllFit(offset, a) && AllFit(EndOffset(offset, a), b)
    ensures Layout(crc, offset, a + b) == Layout(crc, offset, a) + Layout(crc, EndOffset(offset, a), b)
    decreases |a|
  {
    FitSplit(offset, a, b);
    if |a| == 0 {
      assert a + b == b;
      assert Layout(crc, offset, a) == [];
    } else {
      hide Physical, Zeros, PadLength, After, Fits, FragmentOk, Layout, AllFit;
      assert (a + b)[1..] == a[1..] + b && (a + b)[0] == a[0];
      LayoutHead(crc, offset, a + b);
      LayoutHead(crc, offset, a);
      LayoutSplit(crc, After(offset, a[0]), a[1..], b);
      Regroup(Zeros(PadLength(offset)) + Physical(crc, a[0]), Layout(crc, After(offset, a[0]), a[1..]),
              Layout(crc, EndOffset(offset, a), b));
    }
  }

  lemma {:induction false} AllFitJoin(offset: nat, a: seq<Fragment>, b: seq<Fragment>)
    requires AllFit(offset, a) && AllFit(EndOffset(offset, a), b)
    ensures AllFit(offset, a + b)
    decreases |a|
  {
    if |a| == 0 {
      assert a + b == b;
    } else {
      assert (a + b)[1..] == a[1..] + b;
      AllFitJoin(After(offset, a[0]), a[1..], b);
    }
  }

  // ---- logical records ----

  function Room(offset: nat): nat {
    BLOCK_SIZE - (offset + PadLength(offset)) % BLOCK_SIZE - HEADER_SIZE
  }

  function TypeOf(begin: bool, end: bool): byte {
    if begin && end then FULL_TYPE else if begin then FIRST_TYPE else if end then LAST_TYPE else MIDDLE_TYPE
  }

  /** The part of the payload that goes into the current block. */
  function FirstLength(offset: nat, data: seq<byte>): (n: nat)
    ensures n <= |data|
  {
    if |data| < Room(offset) then |data| else Room(offset)
  }

  /** The fragments of a record whose first one is written at offset. */
  function Fragments(offset: nat, data: seq<byte>, begin: bool): seq<Fragment>
    decreases |data|, Room(offset) == 0
  {
    var n := FirstLength(offset, data);
    var f := Fragment(TypeOf(begin, |data| == n), data[..n]);
    if |data| == n then [f]
    else
      RoomAfterFull(offset, f);
      [f] + Fragments(After(offset, f), data[n..], false)
  }

  /** A fragment that fills its block leaves the next one a whole block. */
  lemma RoomAfterFull(offset: nat, f: Fragment)
    requires |f.data| == Room(offset)
    ensures Room(After(offset, f)) == BLOCK_SIZE - HEADER_SIZE
  {
    var start := offset + PadLength(offset);
    assert start % BLOCK_SIZE + HEADER_SIZE + |f.data| == BLOCK_SIZE;
    assert After(offset, f) == start - start % BLOCK_SIZE + BLOCK_SIZE;
    assert After(offset, f) % BLOCK_SIZE == 0;
  }

  function Join(frags: seq<Fragment>): seq<byte> {
    if |frags| == 0 then [] else Join(frags[..|frags| - 1]) + frags[|frags| - 1].data
  }

  lemma {:induction false} JoinFirst(frags: seq<Fragment>)
    requires |frags| > 0
    ensures Join(frags) == frags[0].data + Join(frags[1..])
  {
    if |frags| > 1 {
      var front := frags[..|frags| - 1];
      JoinFirst(front);
      assert front[1..] == frags[1..][..|frags| - 2];
    } else {
      assert frags[..0] == [] && frags[1..] == [];
    }
  }

  /** One full fragment, or a first, middles and a last; in order they spell the record and each fits its block. */
  predicate RecordShape(frags: seq<Fragment>, data: seq<byte>, begin: bool) {
    && |frags| > 0 && Join(frags) == data
    && forall i :: 0 <= i < |frags| ==> frags[i].kind == TypeOf(begin && i == 0, i == |frags| - 1)
  }

  /** The first fragment of a record fits the block it starts in. */
  lemma FirstFits(offset: nat, data: seq<byte>, begin: bool)
    ensures var n := FirstLength(offset, data); Fits(offset, Fragment(TypeOf(begin, |data| == n), data[..n]))
  {
  }

  /** A first fragment before the shape of the rest gives the shape of the whole. */
  lemma ShapeStep(frags: seq<Fragment>, data: seq<byte>, begin: bool, n: nat)
    requires |frags| > 1 && n <= |data| && RecordShape(frags[1..], data[n..], false)
    requires frags[0] == Fragment(TypeOf(begin, false), data[..n])
    ensures RecordShape(frags, data, begin)
  {
    hide Join;
    JoinFirst(frags);
    assert data == data[..n] + data[n..];
    forall i | 0 < i < |frags|
      ensures frags[i].kind == TypeOf(false, i == |frags| - 1)
    {
      assert frags[i] == frags[1..][i - 1];
    }
  }

  lemma {:induction false} FragmentsShape(offset: nat, data: seq<byte>, begin: bool)
    ensures RecordShape(Fragments(offset, data, begin), data, begin)
    ensures AllFit(offset, Fragments(offset, data, begin))
    decreases |data|, Room(offset) == 0
  {
    hide Fits, PadLength, TypeOf, FragmentOk, Room;
    var n := FirstLength(offset, data);
    var f := Fragment(TypeOf(begin, |data| == n), data[..n]);
    var frags := Fragments(offset, data, begin);
    FirstFits(offset, data, begin);
    if |data| == n {
      assert frags == [f] && [f][..0] == [] && data[..n] == data;
      assert Join(frags) == [] + f.data;
    } else {
      RestShrinks(offset, data, f);
      FragmentsShape(After(offset, f), data[n..], false);
      assert frags[1..] == Fragments(After(offset, f), data[n..], false);
      ShapeStep(frags, data, begin, n);
    }
  }

  lemma RestShrinks(offset: nat, data: seq<byte>, f: Fragment)
    requires var n := FirstLength(offset, data); n < |data| && f.data == data[..n]
    ensures var n := FirstLength(offset, data);
            n > 0 || (Room(offset) == 0 && Room(After(offset, f)) != 0)
  {
    RoomAfterFull(offset, f);
  }

  // ---- files ----

  /** What the writer appends for a record, or for what is left of one, at the given file offset. */
  function RecordBytes(crc: Checksum, offset: nat, data: seq<byte>, begin: bool): seq<byte> {
    FragmentsShape(offset, data, begin);
    Layout(crc, offset, Fragments(offset, data, begin))
  }

  /** One fragment, then the rest of the record. */
  lemma RecordStep(crc: Checksum, offset: nat, data: seq<byte>, begin: bool, n: nat, f: Fragment)
    requires n == FirstLength(offset, data) && f == Fragment(TypeOf(begin, |data| == n), data[..n])
    ensures Fits(offset, f)
    ensures RecordBytes(crc, offset, data, begin) == Zeros(PadLength(offset)) + Physical(crc, f)
            + if |data| == n then [] else RecordBytes(crc, After(offset, f), data[n..], false)
  {
    FragmentsShape(offset, data, begin);
    var frags := Fragments(offset, data, begin);
    assert frags[0] == f;
    if |data| == n {
      assert frags[1..] == [] && Layout(crc, After(offset, f), []) == [];
      assert Layout(crc, offset, frags)
        == Zeros(PadLength(offset)) + Physical(crc, f) + Layout(crc, After(offset, f), frags[1..]);
    } else {
      assert frags[1..] == Fragments(After(offset, f), data[n..], false);
    }
  }

  /** The file the writer makes of a list of records. */
  function FileOf(crc: Checksum, records: seq<seq<byte>>): seq<byte> {
    if |records| == 0 then []
    else
      var before := FileOf(crc, records[..|records| - 1]);
      before + RecordBytes(crc, |before|, records[|records| - 1], true)
  }

  function FileFragments(crc: Checksum, records: seq<seq<byte>>): seq<Fragment> {
    if |records| == 0 then []
    else
      var front := records[..|records| - 1];
      FileFragments(crc, front) + Fragments(|FileOf(crc, front)|, records[|records| - 1], true)
  }

  /** The file is the layout of all its fragments. */
  lemma {:induction false} FileIsLayout(crc: Checksum, records: seq<seq<byte>>)
    ensures AllFit(0, FileFragments(crc, records))
    ensures FileOf(crc, records) == Layout(crc, 0, FileFragments(crc, records))
    ensures |FileOf(crc, records)| == EndOffset(0, FileFragments(crc, records))
  {
    if |records| > 0 {
      var front, last := records[..|records| - 1], records[|records| - 1];
      FileIsLayout(crc, front);
      var offset := |FileOf(crc, front)|;
      FragmentsShape(offset, last, true);
      AllFitJoin(0, FileFragments(crc, front), Fragments(offset, last, true));
      LayoutSplit(crc, 0, FileFragments(crc, front), Fragments(offset, last, true));
    }
    LayoutLength(crc, 0, FileFragments(crc, records));
  }

  /** The fragments of the first records are a prefix of the fragments of all of them. */
  lemma {:induction false} FragmentsPrefix(crc: Checksum, records: seq<seq<byte>>, k: nat)
    requires k < |records|
    ensures FileFragments(crc, records[..k]) + Fragments(|FileOf(crc, records[..k])|, records[k], true)
            == FileFragments(crc, records[..k + 1])
    ensures FileFragments(crc, records[..k + 1]) <= FileFragments(crc, records)
  {
    assert records[..k + 1][..k] == records[..k];
    if k + 1 == |records| {
      assert records[..k + 1] == records;
    } else {
      FragmentsPrefix(crc, records[..|records| - 1], k);
      assert records[..|records| - 1][..k + 1] == records[..k + 1];
    }
  }
}
