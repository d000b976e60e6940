/** log::Reader with initial offset 0: physical records out of blocks, logical records out of fragments. */
module LogReader {
  import opened Basics
  import opened Coding
  import opened LogFormat
  import LogWriter

  const EOF: nat := LAST_TYPE + 1
  const BAD_RECORD: nat := LAST_TYPE + 2

  /** The file holds the first bytes of the layout of these fragments. */
  ghost predicate PrefixOf(crc: Checksum, file: seq<byte>, frags: seq<Fragment>) {
    AllFit(0, frags) && file <= Layout(crc, 0, frags)
  }

  /** Where fragment i's record ends. */
  ghost function End(frags: seq<Fragment>, i: nat): nat
    requires i <= |frags|
  {
    EndOffset(0, frags[..i])
  }

  /** Fragment i's record lies wholly inside the file. */
  ghost predicate Whole(file: seq<byte>, frags: seq<Fragment>, i: nat) {
    i < |frags| && End(frags, i + 1) <= |file|
  }

  // ---- what stands in a file, whatever its bytes ----

  /** A physical record and where it was found. */
  datatype Placed = Placed(at: nat, kind: nat, data: seq<byte>)

  /** At its place stand its length, its type and its payload, all in one block, and, if checksums are asked for, the
      checksum of type and payload. */
  predicate Stands(crc: Checksum, checksum: bool, file: seq<byte>, p: Placed) {
    && p.at + 7 + |p.data| <= |file| && p.at % 32768 + 7 + |p.data| <= 32768
    && file[p.at + 4] as int + 256 * file[p.at + 5] as int == |p.data| && file[p.at + 6] == p.kind
    && file[p.at + 7..p.at + 7 + |p.data|] == p.data
    && (checksum ==> Unmask(DecodeFixed32(file[p.at..])) == crc(file[p.at + 6..p.at + 7 + |p.data|]))
  }

  /** Records found one behind the other between two places of the file. */
  predicate Found(crc: Checksum, checksum: bool, file: seq<byte>, ps: seq<Placed>, lo: nat, hi: nat) {
    && (forall i :: 0 <= i < |ps| ==> Stands(crc, checksum, file, ps[i]))
    && (forall i :: 0 <= i < |ps| ==> lo <= ps[i].at && ps[i].at + 7 + |ps[i].data| <= hi)
    && forall i, j :: 0 <= i < j < |ps| ==> ps[i].at + 7 + |ps[i].data| <= ps[j].at
  }

  function Spelled(ps: seq<Placed>): seq<byte> {
    if ps == [] then [] else Spelled(ps[..|ps| - 1]) + ps[|ps| - 1].data
  }

  /** A first record and middle ones behind it. */
  predicate Begun(ps: seq<Placed>) {
    ps != [] && forall i :: 0 <= i < |ps| ==> ps[i].kind == if i == 0 then 2 else 3
  }

  /** A full record alone, or a first, middle ones and a last. */
  predicate Ended(ps: seq<Placed>) {
    && ps != []
    && forall i :: 0 <= i < |ps| ==>
         ps[i].kind == if |ps| == 1 then 1 else if i == 0 then 2 else if i < |ps| - 1 then 3 else 4
  }

  /** The file has a whole record between the two places that spells these bytes. */
  ghost predicate HasRecord(crc: Checksum, checksum: bool, file: seq<byte>, lo: nat, hi: nat, record: seq<byte>) {
    exists ps :: Found(crc, checksum, file, ps, lo, hi) && Ended(ps) && Spelled(ps) == record
  }

  /** The file has these whole records, one behind the other, before the place. */
  ghost predicate HasRecords(crc: Checksum, checksum: bool, file: seq<byte>, hi: nat, rs: seq<seq<byte>>)
    decreases |rs|
  {
    rs == []
    || (var n := |rs| - 1;
        exists mid: nat :: mid <= hi && HasRecords(crc, checksum, file, mid, rs[..n])
          && HasRecord(crc, checksum, file, mid, hi, rs[n]))
  }

  lemma NoRecords(crc: Checksum, checksum: bool, file: seq<byte>)
    ensures HasRecords(crc, checksum, file, 0, [])
  {
  }

  lemma OneMoreRecord(crc: Checksum, checksum: bool, file: seq<byte>, lo: nat, hi: nat, rs: seq<seq<byte>>,
                      r: seq<byte>)
    requires HasRecords(crc, checksum, file, lo, rs) && lo <= hi && HasRecord(crc, checksum, file, lo, hi, r)
    ensures HasRecords(crc, checksum, file, hi, rs + [r])
  {
    hide HasRecord;
    assert (rs + [r])[..|rs|] == rs;
  }

  lemma RecordReaches(crc: Checksum, checksum: bool, file: seq<byte>, lo: nat, hi: nat, hi': nat, r: seq<byte>)
    requires HasRecord(crc, checksum, file, lo, hi, r) && hi <= hi'
    ensures HasRecord(crc, checksum, file, lo, hi', r)
  {
    hide Stands;
    var ps :| Found(crc, checksum, file, ps, lo, hi) && Ended(ps) && Spelled(ps) == r;
    assert Found(crc, checksum, file, ps, lo, hi');
  }

  lemma RecordsReach(crc: Checksum, checksum: bool, file: seq<byte>, hi: nat, hi': nat, rs: seq<seq<byte>>)
    requires HasRecords(crc, checksum, file, hi, rs) && hi <= hi'
    ensures HasRecords(crc, checksum, file, hi', rs)
  {
    hide HasRecord;
    if rs != [] {
      var n := |rs| - 1;
      var mid: nat :| mid <= hi && HasRecords(crc, checksum, file, mid, rs[..n])
        && HasRecord(crc, checksum, file, mid, hi, rs[n]);
      RecordReaches(crc, checksum, file, mid, hi, hi', rs[n]);
    }
  }

  /** What has been put together so far, if anything. */
  ghost predicate HasPart(crc: Checksum, checksum: bool, file: seq<byte>, lo: nat, hi: nat, part: seq<byte>) {
    exists ps :: Found(crc, checksum, file, ps, lo, hi) && Begun(ps) && Spelled(ps) == part
  }

  lemma OnePlaced(p: Placed)
    ensures Spelled([p]) == p.data
  {
    assert [p][..0] == [];
    assert Spelled([p]) == [] + p.data;
  }

  lemma AlonePlaced(crc: Checksum, checksum: bool, file: seq<byte>, lo: nat, p: Placed)
    requires Stands(crc, checksum, file, p) && lo <= p.at
    ensures p.kind == 1 ==> HasRecord(crc, checksum, file, lo, p.at + 7 + |p.data|, p.data)
    ensures p.kind == 2 ==> HasPart(crc, checksum, file, lo, p.at + 7 + |p.data|, p.data)
  {
    hide Stands;
    OnePlaced(p);
    assert Found(crc, checksum, file, [p], lo, p.at + 7 + |p.data|);
    assert p.kind == 1 ==> Ended([p]);
    assert p.kind == 2 ==> Begun([p]);
  }

  lemma NextPlaced(crc: Checksum, checksum: bool, file: seq<byte>, lo: nat, hi: nat, part: seq<byte>, p: Placed)
    requires HasPart(crc, checksum, file, lo, hi, part) && Stands(crc, checksum, file, p) && hi <= p.at
    ensures p.kind == 3 ==> HasPart(crc, checksum, file, lo, p.at + 7 + |p.data|, part + p.data)
    ensures p.kind == 4 ==> HasRecord(crc, checksum, file, lo, p.at + 7 + |p.data|, part + p.data)
  {
    hide Stands;
    var ps :| Found(crc, checksum, file, ps, lo, hi) && Begun(ps) && Spelled(ps) == part;
    var more := ps + [p];
    assert more[..|ps|] == ps;
    assert Found(crc, checksum, file, more, lo, p.at + 7 + |p.data|);
    assert p.kind == 3 ==> Begun(more);
    assert p.kind == 4 ==> Ended(more);
  }

  lemma PartReaches(crc: Checksum, checksum: bool, file: seq<byte>, lo: nat, hi: nat, hi': nat, part: seq<byte>)
    requires HasPart(crc, checksum, file, lo, hi, part) && hi <= hi'
    ensures HasPart(crc, checksum, file, lo, hi', part)
  {
    hide Stands;
    var ps :| Found(crc, checksum, file, ps, lo, hi) && Begun(ps) && Spelled(ps) == part;
    assert Found(crc, checksum, file, ps, lo, hi');
  }

  predicate AtBoundary(pos: nat) {
    pos % BLOCK_SIZE == 0
  }

  /** The n bytes from this offset on lie in one block. */
  predicate InBlock(offset: nat, n: nat) {
    offset % BLOCK_SIZE + n <= BLOCK_SIZE
  }

  class Reader {
    const crc: Checksum
    const checksum: bool
    const file: seq<byte>
    /** How far the file has been read, and what of the last block is not consumed yet. */
    var pos: nat
    var buffer: seq<byte>
    var eof: bool
    /** How many corruptions were reported. */
    var reports: nat

    predicate Valid()
      reads this
    {
      && |buffer| <= pos <= |file| && InBlock(pos - |buffer|, |buffer|) && buffer == file[pos - |buffer|..pos]
      && (if eof then pos == |file| else AtBoundary(pos))
    }

    /** The next thing to read is the record of fragment i, or the file ends before that record does. */
    ghost predicate At(frags: seq<Fragment>, i: nat)
      reads this
    {
      && PrefixOf(crc, file, frags) && i <= |frags|
      && ((eof && buffer == [] && !Whole(file, frags, i)) || pos - |buffer| == End(frags, i))
    }

    constructor (crc: Checksum, checksum: bool, file: seq<byte>)
      ensures Valid() && reports == 0 && this.crc == crc && this.checksum == checksum && this.file == file
      ensures pos == 0 && buffer == [] && !eof
    {
      this.crc, this.checksum, this.file := crc, checksum, file;
      pos, buffer, eof, reports := 0, [], false, 0;
    }

    /** Reads blocks until a header's bytes are there or the file ends; what it skips is a block's trailer. */
    method FillBuffer(ghost frags: seq<Fragment>, ghost i: nat)
      requires Valid()
      modifies this`pos, this`buffer, this`eof
      ensures Valid() && pos - |buffer| >= old(pos - |buffer|)
      ensures |buffer| < HEADER_SIZE ==>
                eof && buffer == [] && (old(At(frags, i)) ==> At(frags, i) && !Whole(file, frags, i))
      ensures |buffer| >= HEADER_SIZE && old(At(frags, i)) ==> Aligned(frags, i)
      ensures |old(buffer)| >= 7 ==> buffer == old(buffer) && pos == old(pos) && eof == old(eof)
      ensures |old(buffer)| < 7 <= |buffer| ==>
                !old(eof) && pos - |buffer| == old(pos) && (|buffer| == 32768 || pos == |file|)
    {
      hide PrefixOf, Whole, End, PadLength, InBlock, AtBoundary, Aligned;
      ghost var tracking := At(frags, i);
      if tracking {
        AtIsAligned(frags, i);
      }
      while |buffer| < HEADER_SIZE
        invariant Valid() && pos - |buffer| >= old(pos - |buffer|)
        invariant || (buffer == old(buffer) && pos == old(pos) && eof == old(eof))
                  || (|old(buffer)| < 7 && !old(eof) && pos - |buffer| == old(pos) && (|buffer| == 32768 || eof))
        invariant tracking ==> PrefixOf(crc, file, frags) && i <= |frags|
        invariant tracking ==> (eof && buffer == [] && !Whole(file, frags, i)) || Aligned(frags, i)
        decreases !eof, |file| - pos
      {
        if eof {
          // a truncated header, or nothing at all
          if tracking && !(buffer == [] && !Whole(file, frags, i)) {
            NotWhole(frags, i);
          }
          NothingInBlock(pos);
          buffer := [];
          return;
        }
        ReadBlock(frags, i);
      }
    }

    /** The next block takes the place of the trailer of the last one. */
    method ReadBlock(ghost frags: seq<Fragment>, ghost i: nat)
      requires Valid() && |buffer| < HEADER_SIZE && !eof
      modifies this`pos, this`buffer, this`eof
      ensures Valid() && pos - |buffer| == old(pos) && (eof || (|buffer| == BLOCK_SIZE && pos > old(pos)))
      ensures old(Aligned(frags, i)) ==> Aligned(frags, i)
    {
      hide PrefixOf, End, PadLength, InBlock, AtBoundary;
      SkipTrailer(pos, |buffer|);
      if Aligned(frags, i) {
        SkipsPadding(End(frags, i), pos - |buffer|, pos);
      }
      var n := if |file| - pos < BLOCK_SIZE then |file| - pos else BLOCK_SIZE;
      NextBlock(pos, n);
      buffer := file[pos..pos + n];
      pos := pos + n;
      eof := n < BLOCK_SIZE;
    }

    lemma AtIsAligned(frags: seq<Fragment>, i: nat)
      requires At(frags, i)
      ensures (eof && buffer == [] && !Whole(file, frags, i)) || Aligned(frags, i)
    {
      hide PrefixOf, Whole, End, PadLength;
    }

    lemma NotWhole(frags: seq<Fragment>, i: nat)
      requires Valid() && Aligned(frags, i) && |file| - (pos - |buffer|) < HEADER_SIZE
      ensures !Whole(file, frags, i)
    {
      TooShort(crc, file, frags, i, pos - |buffer|);
    }

    /** The buffer starts at fragment i's record or at the trailer before it. */
    ghost predicate Aligned(frags: seq<Fragment>, i: nat)
      reads this
    {
      && PrefixOf(crc, file, frags) && i <= |frags|
      && (pos - |buffer| == End(frags, i) || pos - |buffer| == End(frags, i) + PadLength(End(frags, i)))
    }

    /** A record of type 5 was just read. No writer writes that type, and the reader takes it for the end. */
    ghost predicate FalseEnd(data: seq<byte>)
      reads this
    {
      && 7 + |data| <= pos - |buffer|
      && Stands(crc, checksum, file, Placed(pos - |buffer| - 7 - |data|, 5, data))
    }

    ghost predicate AtEndOfLog()
      reads this
    {
      (eof && buffer == []) || exists data :: FalseEnd(data)
    }

    /** The next physical record. On a prefix of a well-formed file that is the record of fragment i when the
        prefix holds all of it and end of file when it does not, and nothing is reported. Of any file, what is returned
        stands there, with its checksum. */
    method ReadPhysicalRecord(ghost frags: seq<Fragment>, ghost i: nat) returns (kind: nat, fragment: seq<byte>)
      requires Valid()
      modifies this
      ensures Valid()
      ensures old(At(frags, i)) ==> reports == old(reports)
      ensures old(At(frags, i)) && Whole(file, frags, i)
              ==> kind == frags[i].kind && fragment == frags[i].data && At(frags, i + 1)
      ensures old(At(frags, i)) && !Whole(file, frags, i) ==> kind == EOF && At(frags, i) && eof && buffer == []
      ensures pos - |buffer| >= old(pos - |buffer|)
      ensures kind != EOF ==> pos - |buffer| > old(pos - |buffer|)
      ensures kind == EOF ==> (eof && buffer == []) || FalseEnd(fragment)
      ensures kind !in {EOF, BAD_RECORD} ==>
                && old(pos - |buffer|) + 7 + |fragment| <= pos - |buffer|
                && Stands(crc, checksum, file, Placed(pos - |buffer| - 7 - |fragment|, kind, fragment))
    {
      hide PrefixOf, Whole, End, Physical, AllFit, Unmask, DecodeFixed32, Stands, InBlock, AtBoundary;
      ghost var tracking := At(frags, i);
      FillBuffer(frags, i);
      if |buffer| < HEADER_SIZE {
        return EOF, [];
      }
      if tracking {
        Expected(frags, i);
      }
      kind, fragment := TakeRecord();
    }

    /** The record in the buffer. A record of type and length zero ends the block without a report; one longer than the
        block, or whose checksum is wrong, ends it with one; one cut short by the end of the file is not an error. */
    method TakeRecord() returns (kind: nat, fragment: seq<byte>)
      requires Valid() && |buffer| >= HEADER_SIZE
      modifies this`buffer, this`reports
      ensures Valid() && |buffer| < |old(buffer)|
      ensures var b := old(buffer);
              var length := b[4] as int + 256 * b[5] as int;
              if 7 + length > |b| then
                if eof then kind == EOF && buffer == [] && reports == old(reports)
                else kind == BAD_RECORD && buffer == [] && reports == old(reports) + 1
              else if b[6] == 0 && length == 0 then kind == BAD_RECORD && buffer == [] && reports == old(reports)
              else if checksum && Unmask(DecodeFixed32(b)) != crc(b[6..7 + length]) then
                kind == BAD_RECORD && buffer == [] && reports == old(reports) + 1
              else
                && kind == b[6] && fragment == b[7..7 + length] && buffer == b[7 + length..] && reports == old(reports)
                && Stands(crc, checksum, file, Placed(pos - |b|, kind, fragment))
    {
      hide Stands, Unmask, DecodeFixed32, InBlock, AtBoundary;
      var length: nat := buffer[4] as int + buffer[5] as int * 256;
      kind := buffer[6];
      if HEADER_SIZE + length > |buffer| {
        Drop();
        if !eof {
          reports := reports + 1;
          return BAD_RECORD, [];
        }
        return EOF, [];
      }
      if kind == ZERO_TYPE && length == 0 {
        Drop();
        return BAD_RECORD, [];
      }
      if checksum && !ChecksumMatches(crc, buffer, length) {
        Drop();
        reports := reports + 1;
        return BAD_RECORD, [];
      }
      BufferStands(kind, length);
      fragment := Consume(length);
    }

    /** On a prefix of a well-formed file the buffer starts with fragment i's record, or with all the file has of it. */
    lemma Expected(frags: seq<Fragment>, i: nat)
      requires Valid() && |buffer| >= HEADER_SIZE && Aligned(frags, i)
      ensures PrefixOf(crc, file, frags) && i <= |frags|
      ensures var length := buffer[4] as int + buffer[5] as int * 256;
              if Whole(file, frags, i) then
                && i < |frags| && HEADER_SIZE + length <= |buffer| && ChecksumMatches(crc, buffer, length)
                && buffer[6] == frags[i].kind != ZERO_TYPE && buffer[HEADER_SIZE..HEADER_SIZE + length] == frags[i].data
                && pos - |buffer| + HEADER_SIZE + length == End(frags, i + 1)
              else HEADER_SIZE + length > |buffer| && eof
    {
      hide PrefixOf, Whole, End, Physical, AllFit, ChecksumMatches;
      HeaderFits(pos - |buffer|, |buffer|);
      RecordHere(crc, file, frags, i, pos - |buffer|, buffer);
      WholeInBuffer(crc, file, frags, i, pos, |buffer|, eof);
      if Whole(file, frags, i) {
        RecordChecks(crc, frags[i], buffer);
      }
    }

    lemma BufferStands(kind: nat, length: nat)
      requires Valid() && |buffer| >= HEADER_SIZE + length && kind == buffer[6]
      requires length == buffer[4] as int + buffer[5] as int * 256
      requires checksum ==> ChecksumMatches(crc, buffer, length)
      ensures Stands(crc, checksum, file, Placed(pos - |buffer|, kind, buffer[HEADER_SIZE..HEADER_SIZE + length]))
    {
      var at := pos - |buffer|;
      assert buffer == file[at..pos];
      assert forall i :: 0 <= i < |buffer| ==> buffer[i] == file[at + i];
      assert buffer[HEADER_SIZE..HEADER_SIZE + length] == file[at + 7..at + 7 + length];
      assert buffer[6..HEADER_SIZE + length] == file[at + 6..at + 7 + length];
      assert DecodeFixed32(buffer) == DecodeFixed32(file[at..]);
    }

    /** Gives up on the rest of the block. */
    method Drop()
      requires Valid()
      modifies this`buffer
      ensures Valid() && buffer == []
    {
      NothingInBlock(pos);
      buffer := [];
    }

    /** Takes the header and the payload off the buffer. */
    method Consume(length: nat) returns (fragment: seq<byte>)
      requires Valid() && HEADER_SIZE + length <= |buffer|
      modifies this`buffer
      ensures Valid() && pos - |buffer| == old(pos - |buffer|) + HEADER_SIZE + length
      ensures fragment == old(buffer)[HEADER_SIZE..HEADER_SIZE + length]
      ensures buffer == old(buffer)[HEADER_SIZE + length..]
    {
      fragment := buffer[HEADER_SIZE..HEADER_SIZE + length];
      ConsumeInBlock(pos - |buffer|, |buffer|, HEADER_SIZE + length);
      assert file[pos - |buffer|..pos][HEADER_SIZE + length..] == file[pos - |buffer| + HEADER_SIZE + length..pos];
      buffer := buffer[HEADER_SIZE + length..];
    }

    /** Positioned at the start of record k, or at the end of a file that does not hold all of record k. */
    ghost predicate AtRecord(records: seq<seq<byte>>, k: nat)
      reads this
    {
      && k <= |records| && file <= FileOf(crc, records)
      && ((eof && buffer == [] && !RecordWhole(crc, file, records, k)) || pos - |buffer| == |FileOf(crc, records[..k])|)
    }

    lemma Enters(records: seq<seq<byte>>, k: nat) returns (i: nat)
      requires Valid() && AtRecord(records, k)
      ensures At(FileFragments(crc, records), i) && Inside(crc, file, records, k, i, false, [])
    {
      hide RecordWhole, Whole, Inside, FileOf, FileFragments, EntryIndex, End;
      i := EntryIndex(crc, records, k, eof && buffer == []);
      Enter(crc, file, records, k, pos - |buffer|, eof && buffer == []);
    }

    /** What one more physical record means for the record being read. */
    ghost predicate Advanced(records: seq<seq<byte>>, k: nat, i: nat, fragmented: bool, scratch: seq<byte>, kind: nat,
                             fragment: seq<byte>)
      reads this
    {
      && kind in {EOF, FULL_TYPE, FIRST_TYPE, MIDDLE_TYPE, LAST_TYPE}
      && (kind == EOF ==> !RecordWhole(crc, file, records, k) && AtRecord(records, k))
      && (kind == FULL_TYPE ==> !fragmented && HasRead(records, k, fragment))
      && (kind == LAST_TYPE ==> fragmented && HasRead(records, k, scratch + fragment))
      && (kind in {FIRST_TYPE, MIDDLE_TYPE} ==> At(FileFragments(crc, records), i + 1))
      && (kind == FIRST_TYPE ==> !fragmented && Inside(crc, file, records, k, i + 1, true, fragment))
      && (kind == MIDDLE_TYPE ==> fragmented && Inside(crc, file, records, k, i + 1, true, scratch + fragment))
    }

    ghost predicate HasRead(records: seq<seq<byte>>, k: nat, data: seq<byte>)
      reads this
    {
      k < |records| && data == records[k] && RecordWhole(crc, file, records, k) && AtRecord(records, k + 1)
    }

    lemma Advances(records: seq<seq<byte>>, k: nat, i: nat, fragmented: bool, scratch: seq<byte>, kind: nat,
                   fragment: seq<byte>)
      requires Inside(crc, file, records, k, i, fragmented, scratch)
      requires Whole(file, FileFragments(crc, records), i) ==>
                 && kind == FileFragments(crc, records)[i].kind && fragment == FileFragments(crc, records)[i].data
                 && At(FileFragments(crc, records), i + 1)
      requires !Whole(file, FileFragments(crc, records), i) ==> kind == EOF && eof && buffer == []
      ensures Advanced(records, k, i, fragmented, scratch, kind, fragment)
    {
      hide RecordWhole, Whole, FileOf, FileFragments, FirstIndex, End, PrefixOf;
      NextFragment(crc, file, records, k, i, fragmented, scratch, kind, fragment);
      if kind == FULL_TYPE || kind == LAST_TYPE {
        Leave(crc, file, records, k + 1, pos - |buffer|, eof && buffer == []);
      }
    }

    /** What one more physical record means for the part put together so far, whatever the bytes. */
    lemma Places(lo: nat, hi: nat, fragmented: bool, part: seq<byte>, kind: nat, fragment: seq<byte>)
      requires Valid() && lo <= hi <= pos - |buffer|
      requires fragmented ==> HasPart(crc, checksum, file, lo, hi, part)
      requires kind !in {EOF, BAD_RECORD} ==>
                 && hi + 7 + |fragment| <= pos - |buffer|
                 && Stands(crc, checksum, file, Placed(pos - |buffer| - 7 - |fragment|, kind, fragment))
      ensures fragmented ==> HasPart(crc, checksum, file, lo, pos - |buffer|, part)
      ensures kind == FULL_TYPE ==> HasRecord(crc, checksum, file, lo, pos - |buffer|, fragment)
      ensures kind == FIRST_TYPE ==> HasPart(crc, checksum, file, lo, pos - |buffer|, fragment)
      ensures kind == MIDDLE_TYPE && fragmented ==> HasPart(crc, checksum, file, lo, pos - |buffer|, part + fragment)
      ensures kind == LAST_TYPE && fragmented ==> HasRecord(crc, checksum, file, lo, pos - |buffer|, part + fragment)
    {
      hide Stands, HasPart, HasRecord;
      if fragmented {
        PartReaches(crc, checksum, file, lo, hi, pos - |buffer|, part);
      }
      if kind !in {EOF, BAD_RECORD} {
        var p := Placed(pos - |buffer| - 7 - |fragment|, kind, fragment);
        AlonePlaced(crc, checksum, file, lo, p);
        if fragmented {
          NextPlaced(crc, checksum, file, lo, hi, part, p);
        }
      }
    }

    /** The next logical record: record k when the file holds all of it, otherwise the end; a record cut short by
        the end of the file is not an error. */
    method ReadRecord(ghost records: seq<seq<byte>>, ghost k: nat) returns (ok: bool, record: seq<byte>)
      requires Valid()
      modifies this
      ensures Valid()
      ensures old(AtRecord(records, k)) ==> reports == old(reports)
      ensures old(AtRecord(records, k)) ==> (ok <==> RecordWhole(crc, file, records, k))
      ensures old(AtRecord(records, k)) && ok ==> record == records[k] && AtRecord(records, k + 1)
      ensures old(AtRecord(records, k)) && !ok ==> AtRecord(records, k)
      ensures pos - |buffer| >= old(pos - |buffer|)
      ensures ok ==> pos - |buffer| > old(pos - |buffer|)
      ensures ok ==> HasRecord(crc, checksum, file, old(pos - |buffer|), pos - |buffer|, record)
      ensures !ok ==> AtEndOfLog()
    {
      hide RecordWhole, Whole, Inside, FileOf, FileFragments, At, AtRecord, InBlock, AtBoundary, HasRecord, HasPart,
        Stands,
           ChecksumMatches, Mask, Unmask, DecodeFixed32;
      ghost var tracking := AtRecord(records, k);
      ghost var i: nat := 0;
      var scratch: seq<byte> := [];
      var inFragmentedRecord := false;
      if tracking {
        i := Enters(records, k);
      }
      while true
        invariant Valid() && pos - |buffer| >= old(pos - |buffer|)
        invariant tracking ==> reports == old(reports)
        invariant tracking ==> At(FileFragments(crc, records), i)
        invariant tracking ==> Inside(crc, file, records, k, i, inFragmentedRecord, scratch)
        invariant inFragmentedRecord ==> HasPart(crc, checksum, file, old(pos - |buffer|), pos - |buffer|, scratch)
        decreases |file| - (pos - |buffer|)
      {
        ghost var before := pos - |buffer|;
        var kind, fragment := ReadPhysicalRecord(FileFragments(crc, records), i);
        if tracking {
          Advances(records, k, i, inFragmentedRecord, scratch, kind, fragment);
          i := i + 1;
        }
        Places(old(pos - |buffer|), before, inFragmentedRecord, scratch, kind, fragment);
        if kind == FULL_TYPE {
          if inFragmentedRecord && scratch != [] {
            reports := reports + 1;
          }
          return true, fragment;
        } else if kind == FIRST_TYPE {
          if inFragmentedRecord && scratch != [] {
            reports := reports + 1;
          }
          scratch := fragment;
          inFragmentedRecord := true;
        } else if kind == MIDDLE_TYPE {
          if !inFragmentedRecord {
            reports := reports + 1;
          } else {
            scratch := scratch + fragment;
          }
        } else if kind == LAST_TYPE {
          if !inFragmentedRecord {
            reports := reports + 1;
          } else {
            scratch := scratch + fragment;
            return true, scratch;
          }
        } else if kind == EOF {
          return false, [];
        } else if kind == BAD_RECORD {
          if inFragmentedRecord {
            reports := reports + 1;
            inFragmentedRecord := false;
            scratch := [];
          }
        } else {
          reports := reports + 1;
          inFragmentedRecord := false;
          scratch := [];
        }
      }
    }
  }

  lemma NotPastEnd(reader: Reader)
    requires reader.Valid()
    ensures reader.pos - |reader.buffer| <= |reader.file|
  {
  }

  // ---- from fragments to records ----

  /** Record k lies wholly inside the file. */
  ghost predicate RecordWhole(crc: Checksum, file: seq<byte>, records: seq<seq<byte>>, k: nat) {
    k < |records| && |FileOf(crc, records[..k + 1])| <= |file|
  }

  /** Exactly the first n records lie wholly inside the file. */
  ghost predicate WholeRecords(crc: Checksum, file: seq<byte>, records: seq<seq<byte>>, n: nat) {
    && n <= |records| && |FileOf(crc, records[..n])| <= |file|
    && !RecordWhole(crc, file, records, n)
  }

  /** How many records lie wholly inside the file. */
  ghost function WholeCount(crc: Checksum, file: seq<byte>, records: seq<seq<byte>>): (n: nat)
    ensures n <= |records|
  {
    WholeFrom(crc, file, records, 0)
  }

  ghost function WholeFrom(crc: Checksum, file: seq<byte>, records: seq<seq<byte>>, k: nat): (n: nat)
    requires k <= |records|
    ensures k <= n <= |records|
    decreases |records| - k
  {
    if RecordWhole(crc, file, records, k) then WholeFrom(crc, file, records, k + 1) else k
  }

  lemma WholeBefore(crc: Checksum, file: seq<byte>, records: seq<seq<byte>>, i: nat, j: nat)
    requires i <= j && RecordWhole(crc, file, records, j)
    ensures RecordWhole(crc, file, records, i)
  {
    FilePrefix(crc, records[..j + 1], i + 1);
    assert records[..j + 1][..i + 1] == records[..i + 1];
  }

  lemma {:induction false} WholeFromIs(crc: Checksum, file: seq<byte>, records: seq<seq<byte>>, k: nat, n: nat)
    requires k <= n && WholeRecords(crc, file, records, n)
    ensures WholeFrom(crc, file, records, k) == n
    decreases n - k
  {
    hide FileOf;
    if k < n {
      WholeBefore(crc, file, records, k, n - 1);
      WholeFromIs(crc, file, records, k + 1, n);
    }
  }

  /** Records end in order, so the whole ones are the first ones. */
  lemma WholeCountIs(crc: Checksum, file: seq<byte>, records: seq<seq<byte>>, n: nat)
    requires WholeRecords(crc, file, records, n)
    ensures WholeCount(crc, file, records) == n
  {
    WholeFromIs(crc, file, records, 0, n);
  }

  /** The index of record k's first fragment. */
  ghost function FirstIndex(crc: Checksum, records: seq<seq<byte>>, k: nat): nat
    requires k <= |records|
  {
    |FileFragments(crc, records[..k])|
  }

  /** Where reading resumes: at record k's first fragment, or, at the end of the file, at a fragment that is not
      there. */
  ghost function EntryIndex(crc: Checksum, records: seq<seq<byte>>, k: nat, exhausted: bool): nat
    requires k <= |records|
  {
    if exhausted && k < |records| && FirstIndex(crc, records, k + 1) > 0 then FirstIndex(crc, records, k + 1) - 1
    else FirstIndex(crc, records, k)
  }

  /** Reading record k has come to fragment i; scratch holds what its earlier fragments spell. */
  ghost predicate Inside(crc: Checksum, file: seq<byte>, records: seq<seq<byte>>, k: nat, i: nat, fragmented: bool,
                         scratch: seq<byte>) {
    && k <= |records| && file <= FileOf(crc, records)
    && FirstIndex(crc, records, k) <= i <= |FileFragments(crc, records)|
    && (k == |records| ==> i == |FileFragments(crc, records)|)
    && (k < |records| ==> i < FirstIndex(crc, records, k + 1))
    && (Whole(file, FileFragments(crc, records), i) ==>
          && (fragmented <==> i > FirstIndex(crc, records, k))
          && scratch == Join(FileFragments(crc, records)[FirstIndex(crc, records, k)..i]))
  }

  /** Record k's fragments within the file's fragments. */
  lemma RecordSlice(crc: Checksum, records: seq<seq<byte>>, k: nat)
    requires k < |records|
    ensures FirstIndex(crc, records, k) < FirstIndex(crc, records, k + 1) <= |FileFragments(crc, records)|
    ensures RecordShape(FileFragments(crc, records)[FirstIndex(crc, records, k)..FirstIndex(crc, records, k + 1)],
              records[k], true)
    ensures FileFragments(crc, records)[..FirstIndex(crc, records, k + 1)] == FileFragments(crc, records[..k + 1])
  {
    var offset := |FileOf(crc, records[..k])|;
    FragmentsPrefix(crc, records, k);
    FragmentsShape(offset, records[k], true);
    assert FileFragments(crc, records)[FirstIndex(crc, records, k)..FirstIndex(crc, records, k + 1)]
      == Fragments(offset, records[k], true);
  }

  /** The fragments of the first k records end where the file of those records ends. */
  lemma RecordEnd(crc: Checksum, records: seq<seq<byte>>, k: nat)
    requires k <= |records|
    ensures FirstIndex(crc, records, k) <= |FileFragments(crc, records)|
    ensures End(FileFragments(crc, records), FirstIndex(crc, records, k)) == |FileOf(crc, records[..k])|
    ensures k == |records| ==> FirstIndex(crc, records, k) == |FileFragments(crc, records)|
  {
    hide Layout, Fragments, RecordBytes, AllFit;
    FileIsLayout(crc, records[..k]);
    if k == |records| {
      assert records[..k] == records;
      assert FileFragments(crc, records)[..|FileFragments(crc, records)|] == FileFragments(crc, records);
    } else if k == 0 {
      assert FileFragments(crc, records)[..0] == [];
    } else {
      RecordSlice(crc, records, k - 1);
    }
  }

  lemma {:induction false} EndMonotone(frags: seq<Fragment>, i: nat, j: nat)
    requires i <= j <= |frags|
    ensures End(frags, i) <= End(frags, j)
  {
    if i < j {
      EndMonotone(frags, i, j - 1);
      assert frags[..j] == frags[..j - 1] + [frags[j - 1]];
      EndSnoc(0, frags[..j - 1], frags[j - 1]);
    }
  }

  /** A record is whole exactly when its last fragment is; then all its fragments are. */
  lemma WholeByFragments(crc: Checksum, file: seq<byte>, records: seq<seq<byte>>, k: nat)
    requires k < |records|
    ensures 0 < FirstIndex(crc, records, k + 1) <= |FileFragments(crc, records)|
    ensures RecordWhole(crc, file, records, k) <==>
              Whole(file, FileFragments(crc, records), FirstIndex(crc, records, k + 1) - 1)
    ensures forall i :: FirstIndex(crc, records, k) <= i < FirstIndex(crc, records, k + 1)
              && RecordWhole(crc, file, records, k)
              ==> Whole(file, FileFragments(crc, records), i)
  {
    RecordSlice(crc, records, k);
    RecordEnd(crc, records, k + 1);
    forall i {:trigger Whole(file, FileFragments(crc, records), i)} |
      FirstIndex(crc, records, k) <= i < FirstIndex(crc, records, k + 1) && RecordWhole(crc, file, records, k)
      ensures Whole(file, FileFragments(crc, records), i)
    {
      EndMonotone(FileFragments(crc, records), i + 1, FirstIndex(crc, records, k + 1));
    }
  }

  /** The reader's position as a fragment position, when a record is about to be read. */
  lemma Enter(crc: Checksum, file: seq<byte>, records: seq<seq<byte>>, k: nat, offset: nat, exhausted: bool)
    requires k <= |records| && file <= FileOf(crc, records) && (exhausted ==> offset == |file|)
    requires (exhausted && !RecordWhole(crc, file, records, k)) || offset == |FileOf(crc, records[..k])|
    ensures Inside(crc, file, records, k, EntryIndex(crc, records, k, exhausted), false, [])
    ensures PrefixOf(crc, file, FileFragments(crc, records))
    ensures EntryIndex(crc, records, k, exhausted) <= |FileFragments(crc, records)|
    ensures (exhausted && !Whole(file, FileFragments(crc, records), EntryIndex(crc, records, k, exhausted)))
            || offset == End(FileFragments(crc, records), EntryIndex(crc, records, k, exhausted))
  {
    FileIsLayout(crc, records);
    RecordEnd(crc, records, k);
    if k < |records| {
      RecordSlice(crc, records, k);
      WholeByFragments(crc, file, records, k);
      LaterRecordEnds(crc, records, k);
    }
    assert Join([]) == [];
  }

  lemma LaterRecordEnds(crc: Checksum, records: seq<seq<byte>>, k: nat)
    requires k < |records|
    ensures |FileOf(crc, records[..k])| < |FileOf(crc, records[..k + 1])|
  {
    assert records[..k + 1][..k] == records[..k];
    FragmentsShape(|FileOf(crc, records[..k])|, records[k], true);
  }

  /** What one more physical record means for the record being read. */
  lemma NextFragment(crc: Checksum, file: seq<byte>, records: seq<seq<byte>>, k: nat, i: nat, fragmented: bool,
                     scratch: seq<byte>,
                     kind: nat, fragment: seq<byte>)
    requires Inside(crc, file, records, k, i, fragmented, scratch)
    requires Whole(file, FileFragments(crc, records), i) ==>
      kind == FileFragments(crc, records)[i].kind && fragment == FileFragments(crc, records)[i].data
    requires !Whole(file, FileFragments(crc, records), i) ==> kind == EOF
    ensures kind == EOF ==> !Whole(file, FileFragments(crc, records), i) && !RecordWhole(crc, file, records, k)
    ensures kind != EOF ==>
              Whole(file, FileFragments(crc, records), i) && kind in {FULL_TYPE, FIRST_TYPE, MIDDLE_TYPE, LAST_TYPE}
    ensures kind == FULL_TYPE ==> !fragmented && Complete(crc, file, records, k, i, fragment)
    ensures kind == FIRST_TYPE ==> !fragmented && Inside(crc, file, records, k, i + 1, true, fragment)
    ensures kind == MIDDLE_TYPE ==> fragmented && Inside(crc, file, records, k, i + 1, true, scratch + fragment)
    ensures kind == LAST_TYPE ==> fragmented && Complete(crc, file, records, k, i, scratch + fragment)
  {
    hide FileOf, FileFragments, Join, FirstIndex, End;
    if k < |records| {
      WholeByFragments(crc, file, records, k);
      FragmentInRecord(crc, records, k, i);
    }
  }

  /** The type of a record's fragment says whether it is the first or the last, and what is spelled so far grows by
      it. */
  lemma FragmentInRecord(crc: Checksum, records: seq<seq<byte>>, k: nat, i: nat)
    requires k < |records| && FirstIndex(crc, records, k) <= i < FirstIndex(crc, records, k + 1)
    ensures FirstIndex(crc, records, k + 1) <= |FileFragments(crc, records)|
    ensures FileFragments(crc, records)[i].kind
              == TypeOf(i == FirstIndex(crc, records, k), i + 1 == FirstIndex(crc, records, k + 1))
    ensures Join(FileFragments(crc, records)[FirstIndex(crc, records, k)..i + 1])
            == Join(FileFragments(crc, records)[FirstIndex(crc, records, k)..i]) + FileFragments(crc, records)[i].data
    ensures Join(FileFragments(crc, records)[FirstIndex(crc, records, k)..FirstIndex(crc, records, k)]) == []
    ensures Join(FileFragments(crc, records)[FirstIndex(crc, records, k)..FirstIndex(crc, records, k + 1)])
              == records[k]
  {
    RecordSlice(crc, records, k);
    var frags, first, next := FileFragments(crc, records), FirstIndex(crc, records, k), FirstIndex(crc, records, k + 1);
    hide FileFragments, FirstIndex, TypeOf;
    JoinExtends(frags, first, i);
    hide Join;
    assert frags[first..next][i - first] == frags[i];
  }

  lemma JoinExtends(frags: seq<Fragment>, first: nat, i: nat)
    requires first <= i < |frags|
    ensures Join(frags[first..i + 1]) == Join(frags[first..i]) + frags[i].data
    ensures Join(frags[first..first]) == []
  {
    assert frags[first..i + 1][..i - first] == frags[first..i];
    assert frags[first..first] == [];
  }

  /** Fragment i completes record k. */
  ghost predicate Complete(crc: Checksum, file: seq<byte>, records: seq<seq<byte>>, k: nat, i: nat, data: seq<byte>) {
    k < |records| && data == records[k] && RecordWhole(crc, file, records, k)
      && i + 1 == FirstIndex(crc, records, k + 1)
  }

  /** After a complete record the reader stands at the next one. */
  lemma Leave(crc: Checksum, file: seq<byte>, records: seq<seq<byte>>, k: nat, offset: nat, exhausted: bool)
    requires 0 < k <= |records| && file <= FileOf(crc, records)
    requires FirstIndex(crc, records, k) <= |FileFragments(crc, records)|
    requires (exhausted && !Whole(file, FileFragments(crc, records), FirstIndex(crc, records, k)))
             || offset == End(FileFragments(crc, records), FirstIndex(crc, records, k))
    ensures (exhausted && !RecordWhole(crc, file, records, k)) || offset == |FileOf(crc, records[..k])|
  {
    RecordEnd(crc, records, k);
    if k < |records| {
      RecordSlice(crc, records, k);
      WholeByFragments(crc, file, records, k);
    }
  }

  /** The record is whole in the file exactly when it is whole in the buffer, and cut only at the end of the file. */
  lemma WholeInBuffer(crc: Checksum, file: seq<byte>, frags: seq<Fragment>, i: nat, pos: nat, n: nat, eof: bool)
    requires PrefixOf(crc, file, frags) && i < |frags| && Fits(End(frags, i), frags[i])
    requires HEADER_SIZE <= n <= pos <= |file| && InBlock(pos - n, n) && PadLength(pos - n) == 0
    requires if eof then pos == |file| else AtBoundary(pos)
    requires pos - n == End(frags, i) || pos - n == End(frags, i) + PadLength(End(frags, i))
    requires End(frags, i + 1) == pos - n + HEADER_SIZE + |frags[i].data|
    ensures Whole(file, frags, i) <==> HEADER_SIZE + |frags[i].data| <= n
    ensures HEADER_SIZE + |frags[i].data| > n ==> eof
    ensures Whole(file, frags, i) ==> PrefixOf(crc, file, frags) && i + 1 <= |frags|
  {
    hide PrefixOf, End, PadLength, FragmentOk;
    var start := pos - n;
    if !eof {
      BlockEnd(start, n, HEADER_SIZE + |frags[i].data|);
    }
  }

  /** What fits the block it starts in ends where the block ends or before. */
  lemma BlockEnd(start: nat, n: nat, length: nat)
    requires n > 0 && start % BLOCK_SIZE + n <= BLOCK_SIZE && (start + n) % BLOCK_SIZE == 0
    requires start % BLOCK_SIZE + length <= BLOCK_SIZE
    ensures length <= n
  {
    assert start + n == start / BLOCK_SIZE * BLOCK_SIZE + (start % BLOCK_SIZE + n);
  }

  /** A block read at a block boundary stays in its block, and ends at the next boundary if it is whole. */
  lemma NextBlock(pos: nat, n: nat)
    requires AtBoundary(pos) && n <= BLOCK_SIZE
    ensures InBlock(pos, n) && (n == BLOCK_SIZE ==> AtBoundary(pos + n))
  {
  }

  /** The stored checksum is that of the type byte and the payload. */
  predicate ChecksumMatches(crc: Checksum, buffer: seq<byte>, length: nat)
    requires |buffer| >= HEADER_SIZE + length
  {
    Unmask(DecodeFixed32(buffer)) == crc(buffer[6..HEADER_SIZE + length])
  }

  lemma RecordChecks(crc: Checksum, f: Fragment, buffer: seq<byte>)
    requires FragmentOk(f) && |buffer| >= HEADER_SIZE + |f.data| && buffer[..HEADER_SIZE + |f.data|] == Physical(crc, f)
    ensures ChecksumMatches(crc, buffer, |f.data|)
    ensures buffer[HEADER_SIZE..HEADER_SIZE + |f.data|] == f.data
  {
    var record := buffer[..HEADER_SIZE + |f.data|];
    var stored := Mask(crc([f.kind] + f.data));
    assert record[..4] == Fixed32(stored);
    assert DecodeFixed32(buffer) == DecodeFixed32(record[..4]);
    DecodeEncodeFixed32(stored);
    UnmaskMask(crc([f.kind] + f.data));
    assert buffer[6..HEADER_SIZE + |f.data|] == record[6..];
    assert record[6..] == [f.kind] + f.data;
    assert buffer[HEADER_SIZE..HEADER_SIZE + |f.data|] == record[HEADER_SIZE..];
  }

  lemma SkipsPadding(end: nat, offset: nat, pos: nat)
    requires offset == end || offset == end + PadLength(end)
    requires pos == offset + PadLength(offset)
    ensures pos == end + PadLength(end)
  {
    assert PadLength(end + PadLength(end)) == 0;
  }

  lemma ConsumeInBlock(offset: nat, n: nat, k: nat)
    requires InBlock(offset, n) && k <= n
    ensures InBlock(offset + k, n - k)
  {
  }

  lemma SkipTrailer(pos: nat, n: nat)
    requires AtBoundary(pos) && n < HEADER_SIZE && n <= pos
    ensures PadLength(pos - n) == n
  {
  }

  lemma NothingInBlock(offset: nat)
    ensures InBlock(offset, 0)
  {
  }

  lemma HeaderFits(offset: nat, n: nat)
    requires InBlock(offset, n) && n >= HEADER_SIZE
    ensures PadLength(offset) == 0
  {
  }

  /** Fragment i's record starts after its padding, and these are its bytes. */
  lemma RecordBytesAt(crc: Checksum, frags: seq<Fragment>, i: nat)
    requires AllFit(0, frags) && i < |frags|
    ensures Fits(End(frags, i), frags[i])
    ensures End(frags, i + 1) == After(End(frags, i), frags[i]) <= |Layout(crc, 0, frags)|
    ensures Layout(crc, 0, frags)[End(frags, i) + PadLength(End(frags, i))..End(frags, i + 1)]
              == Physical(crc, frags[i])
  {
    var a, b := frags[..i], frags[i..];
    assert frags == a + b;
    FitSplit(0, a, b);
    LayoutSplit(crc, 0, a, b);
    LayoutLength(crc, 0, a);
    assert frags[..i + 1] == a + [frags[i]];
    assert b[1..] == frags[i + 1..];
    EndSnoc(0, a, frags[i]);
  }

  lemma {:induction false} EndSnoc(offset: nat, a: seq<Fragment>, f: Fragment)
    ensures EndOffset(offset, a + [f]) == After(EndOffset(offset, a), f)
    decreases |a|
  {
    if |a| == 0 {
      assert a + [f] == [f] && [f][1..] == [];
    } else {
      assert (a + [f])[1..] == a[1..] + [f];
      EndSnoc(After(offset, a[0]), a[1..], f);
    }
  }

  /** Fewer than a header's bytes before the end of the file: the record is not whole. */
  lemma TooShort(crc: Checksum, file: seq<byte>, frags: seq<Fragment>, i: nat, offset: nat)
    requires PrefixOf(crc, file, frags) && i <= |frags| && offset >= End(frags, i) && |file| - offset < HEADER_SIZE
    requires offset == End(frags, i) || offset == End(frags, i) + PadLength(End(frags, i))
    ensures !Whole(file, frags, i)
  {
    if i < |frags| {
      RecordBytesAt(crc, frags, i);
    }
  }

  /** With a header's bytes in the buffer, they are the header of fragment i's record. */
  lemma RecordHere(crc: Checksum, file: seq<byte>, frags: seq<Fragment>, i: nat, start: nat, buffer: seq<byte>)
    requires PrefixOf(crc, file, frags) && i <= |frags|
    requires |buffer| >= HEADER_SIZE && start + |buffer| <= |file| && buffer == file[start..start + |buffer|]
    requires PadLength(start) == 0
    requires start == End(frags, i) || start == End(frags, i) + PadLength(End(frags, i))
    ensures i < |frags| && Fits(End(frags, i), frags[i])
    ensures End(frags, i + 1) == start + HEADER_SIZE + |frags[i].data|
    ensures buffer[4] as int + buffer[5] as int * 256 == |frags[i].data| && buffer[6] == frags[i].kind
    ensures HEADER_SIZE + |frags[i].data| <= |buffer| ==>
              buffer[..HEADER_SIZE + |frags[i].data|] == Physical(crc, frags[i])
  {
    var all := Layout(crc, 0, frags);
    LayoutLength(crc, 0, frags);
    assert frags[..|frags|] == frags;
    assert i < |frags|;
    RecordBytesAt(crc, frags, i);
    var record := Physical(crc, frags[i]);
    assert start == End(frags, i) + PadLength(End(frags, i));
    forall k | 0 <= k < |buffer| && k < |record|
      ensures buffer[k] == record[k]
    {
      assert buffer[k] == file[start + k] == all[start + k];
      assert all[start..start + |record|][k] == all[start + k];
    }
  }

  // ---- whole files ----

  lemma WholeOrNot(crc: Checksum, file: seq<byte>, records: seq<seq<byte>>, n: nat)
    requires n <= |records|
    ensures RecordWhole(crc, file, records, n) <==> n < |records| && |FileOf(crc, records[..n + 1])| <= |file|
  {
  }

  /** Reading a prefix of a written file, cut at any byte, yields exactly the records wholly inside the prefix, in
      order, and reports nothing. */
  method ReadAll(crc: Checksum, checksum: bool, file: seq<byte>, ghost records: seq<seq<byte>>)
    returns (read: seq<seq<byte>>, reports: nat)
    requires file <= FileOf(crc, records)
    ensures reports == 0 && read <= records
    ensures |FileOf(crc, records[..|read|])| <= |file|
    ensures |read| < |records| ==> |file| < |FileOf(crc, records[..|read| + 1])|
  {
    var reader := new Reader(crc, checksum, file);
    read := [];
    assert records[..0] == [] && FileOf(crc, []) == [];
    assert reader.AtRecord(records, 0);
    hide FileOf, RecordWhole, Reader.Valid, Reader.AtRecord, Reader.AtEndOfLog, HasRecord;
    ghost var n: nat := 0;
    var more := true;
    while more
      invariant fresh(reader) && reader.Valid() && reader.crc == crc && reader.file == file && reader.reports == 0
      invariant n <= |records| && read == records[..n] && reader.AtRecord(records, n)
      invariant |FileOf(crc, records[..n])| <= |file| && (!more ==> !RecordWhole(crc, file, records, n))
      decreases more, |file| - (reader.pos - |reader.buffer|)
    {
      NotPastEnd(reader);
      var ok, record := reader.ReadRecord(records, n);
      NotPastEnd(reader);
      WholeOrNot(crc, file, records, n);
      if ok {
        assert records[..n + 1] == records[..n] + [record];
        read, n := read + [record], n + 1;
      } else {
        more := false;
      }
    }
    WholeOrNot(crc, file, records, n);
    assert |read| == n;
    reports := reader.reports;
  }

  /** The full file gives the full list back. */
  lemma WholeFileReadsAll(crc: Checksum, records: seq<seq<byte>>, k: nat)
    requires k <= |records|
    requires k < |records| ==> |FileOf(crc, records)| < |FileOf(crc, records[..k + 1])|
    ensures k == |records|
  {
    if k < |records| {
      FilePrefix(crc, records, k + 1);
    }
  }

  lemma {:induction false} FilePrefix(crc: Checksum, records: seq<seq<byte>>, k: nat)
    requires k <= |records|
    ensures FileOf(crc, records[..k]) <= FileOf(crc, records)
  {
    if k < |records| {
      FilePrefix(crc, records[..|records| - 1], k);
      assert records[..|records| - 1][..k] == records[..k];
    } else {
      assert records[..k] == records;
    }
  }

  /** Written, cut at any byte, and read again. */
  method WriteCrashRead(crc: Checksum, records: seq<seq<byte>>, cut: nat) returns (read: seq<seq<byte>>)
    ensures read <= records
    ensures |FileOf(crc, records)| <= cut ==> read == records
    ensures |read| < |records| ==> cut < |FileOf(crc, records[..|read| + 1])|
    ensures |read| > 0 ==> |FileOf(crc, records[..|read|])| <= cut
  {
    var file := LogWriter.WriteAll(crc, records);
    var reports;
    read, reports := ReadAll(crc, true, if cut < |file| then file[..cut] else file, records);
    if |FileOf(crc, records)| <= cut {
      WholeFileReadsAll(crc, records, |read|);
    }
    FilePrefix(crc, records, |read|);
    if |read| < |records| {
      FilePrefix(crc, records, |read| + 1);
    }
  }
}
