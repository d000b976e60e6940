/** log::Writer: appends records to a file, fragmenting them over blocks. */
module LogWriter {
  import opened Basics
  import opened Coding
  import opened LogFormat

  class Writer {
    const crc: Checksum
    var dest: seq<byte>
    var blockOffset: nat

    predicate Valid()
      reads this
    {
      blockOffset <= BLOCK_SIZE && blockOffset % BLOCK_SIZE == |dest| % BLOCK_SIZE
    }

    constructor (crc: Checksum)
      ensures Valid() && dest == [] && this.crc == crc
    {
      this.crc := crc;
      dest, blockOffset := [], 0;
    }

    /** Appends exactly the bytes of the record's fragments at the current end of the file. */
    method AddRecord(slice: seq<byte>)
      requires Valid()
      modifies this
      ensures Valid() && dest == old(dest) + RecordBytes(crc, |old(dest)|, slice, true)
    {
      hide RecordBytes, Physical, TypeOf, FragmentOk, Zeros;
      var left := slice;
      var begin, more := true, true;
      while more
        invariant Valid()
        invariant more ==>
                  dest + RecordBytes(crc, |dest|, left, begin) == old(dest) + RecordBytes(crc, |old(dest)|, slice, true)
        invariant !more ==> dest == old(dest) + RecordBytes(crc, |old(dest)|, slice, true)
        decreases more, |left|, Room(|dest|) == 0
      {
        ghost var before := dest;
        var leftover := BLOCK_SIZE - blockOffset;
        if leftover < HEADER_SIZE {
          dest := dest + Zeros(leftover);
          blockOffset := 0;
        }
        PadMatches(|before|, leftover, |dest|, blockOffset);
        var avail := BLOCK_SIZE - blockOffset - HEADER_SIZE;
        var length := if |left| < avail then |left| else avail;
        var end := |left| == length;
        var f := Fragment(TypeOf(begin, end), left[..length]);
        RecordStep(crc, |before|, left, begin, length, f);
        EmitPhysicalRecord(f);
        assert dest == before + (Zeros(PadLength(|before|)) + Physical(crc, f));
        if !end {
          RoomAfterFull(|before|, f);
        }
        left := left[length..];
        begin := false;
        more := |left| > 0;
      }
    }

    method EmitPhysicalRecord(f: Fragment)
      requires Valid() && FragmentOk(f) && blockOffset + HEADER_SIZE + |f.data| <= BLOCK_SIZE
      modifies this
      ensures Valid() && dest == old(dest) + Physical(crc, f)
    {
      var header := Fixed32(Mask(crc([f.kind] + f.data))) + [|f.data| % 256, |f.data| / 256, f.kind];
      assert Physical(crc, f) == header + f.data;
      BlockAdvance(blockOffset, |dest|, HEADER_SIZE + |f.data|);
      dest := dest + header;
      dest := dest + f.data;
      blockOffset := blockOffset + HEADER_SIZE + |f.data|;
    }
  }

  lemma BlockAdvance(blockOffset: nat, length: nat, n: nat)
    requires blockOffset + n <= BLOCK_SIZE && blockOffset % BLOCK_SIZE == length % BLOCK_SIZE
    ensures (blockOffset + n) % BLOCK_SIZE == (length + n) % BLOCK_SIZE
  {
  }

  /** The writer's block offset makes the same padding decision as the file length does. */
  lemma PadMatches(length: nat, leftover: int, length': nat, blockOffset': nat)
    requires 0 <= leftover <= BLOCK_SIZE && (BLOCK_SIZE - leftover) % BLOCK_SIZE == length % BLOCK_SIZE
    requires leftover < HEADER_SIZE ==> length' == length + leftover && blockOffset' == 0
    requires leftover >= HEADER_SIZE ==> length' == length && blockOffset' == BLOCK_SIZE - leftover
    ensures length' == length + PadLength(length)
    ensures blockOffset' == length' % BLOCK_SIZE
    ensures Room(length) == BLOCK_SIZE - blockOffset' - HEADER_SIZE
  {
  }

  /** Adding records one after the other produces the file of the list. */
  method WriteAll(crc: Checksum, records: seq<seq<byte>>) returns (file: seq<byte>)
    ensures file == FileOf(crc, records)
  {
    var w := new Writer(crc);
    for i := 0 to |records|
      invariant fresh(w) && w.Valid() && w.crc == crc && w.dest == FileOf(crc, records[..i])
    {
      assert records[..i + 1][..i] == records[..i];
      w.AddRecord(records[i]);
    }
    assert records[..|records|] == records;
    file := w.dest;
  }
}
