/** The log writer and reader (db/log_writer.cc, db/log_reader.cc), each proved against the byte
    format. */
module LogIo {
  import opened Coding
  import opened LogFormat

  class Writer {
    const crc: CrcStep
    const typeCrc: seq<uint32>
    var dest: bytes
    var blockOffset: nat
    // The number of whole blocks before the current one.
    ghost var blocks: nat

    ghost predicate Valid()
      reads this
    {
      && blockOffset <= BLOCK_SIZE
      && |dest| == blocks * BLOCK_SIZE + blockOffset
      && |typeCrc| == 5 && forall t: byte :: t < 5 ==> typeCrc[t] == Crc(crc, [t])
    }

    /** A writer for a file that already holds `dest`; a new file when that is empty. */
    constructor (crc: CrcStep, dest: bytes)
      ensures Valid() && this.crc == crc && this.dest == dest
      ensures blockOffset == |dest| % BLOCK_SIZE
    {
      this.crc := crc;
      this.dest := dest;
      blockOffset := |dest| % BLOCK_SIZE;
      blocks := |dest| / BLOCK_SIZE;
      typeCrc := [Crc(crc, [0]), Crc(crc, [1]), Crc(crc, [2]), Crc(crc, [3]), Crc(crc, [4])];
    }

    method EmitPhysicalRecord(t: byte, data: bytes)
      requires Valid() && t < 5 && |data| <= 0xffff && blockOffset + HEADER_SIZE + |data| <= BLOCK_SIZE
      modifies this
      ensures Valid() && dest == old(dest) + Physical(crc, t, data)
      ensures blockOffset == old(blockOffset) + HEADER_SIZE + |data|
    {
      var sum := Mask(Extend(crc, typeCrc[t], data));
      ExtendConcat(crc, 0, [t], data);
      var header := EncodeFixed(sum, 4) + [|data| % 256, |data| / 256, t];
      dest := dest + header;
      dest := dest + data;
      assert dest == old(dest) + Physical(crc, t, data);
      blockOffset := blockOffset + HEADER_SIZE + |data|;
    }

    /** Fills the block up and starts the next when no header fits any more. */
    method SwitchBlock()
      requires Valid()
      modifies this
      ensures Valid() && dest == old(dest) + Trailer(old(blockOffset)) && blockOffset == HeaderOffset(old(blockOffset))
    {
      var leftover := BLOCK_SIZE - blockOffset;
      if leftover < HEADER_SIZE {
        if leftover > 0 {
          dest := dest + Zeros(leftover);
        }
        blockOffset, blocks := 0, blocks + 1;
      }
      assert dest == old(dest) + Trailer(old(blockOffset));
    }

    /** One iteration of the loop in AddRecord: as much of the rest as the block has room for. */
    method EmitFragment(data: bytes, ptr: nat, begin: bool) returns (n: nat)
      requires Valid() && ptr <= |data|
      modifies this
      ensures Valid() && n == Fragment(old(blockOffset), data[ptr..])
      ensures dest == old(dest) + Trailer(old(blockOffset))
              + Physical(crc, RecordType(begin, n == |data| - ptr), data[ptr..][..n])
      ensures blockOffset == HeaderOffset(old(blockOffset)) + HEADER_SIZE + n
    {
      hide Physical, Trailer;
      SwitchBlock();
      var left, avail := |data| - ptr, BLOCK_SIZE - blockOffset - HEADER_SIZE;
      n := if left < avail then left else avail;
      var end := left == n;
      var t: byte := if begin && end then FULL else if begin then FIRST else if end then LAST else MIDDLE;
      assert data[ptr..ptr + n] == data[ptr..][..n];
      EmitPhysicalRecord(t, data[ptr..ptr + n]);
    }

    method AddRecord(data: bytes)
      requires Valid()
      modifies this
      ensures Valid() && dest == old(dest) + Fragments(crc, old(blockOffset), data, true)
      ensures blockOffset == EndOffset(old(blockOffset), data)
    {
      hide Fragments, EndOffset, Physical, Trailer, RecordType;
      var ptr, left := 0, |data|;
      var begin := true;
      ghost var goal, goalOffset := dest + Fragments(crc, blockOffset, data, true), EndOffset(blockOffset, data);
      assert data[0..] == data;
      while true
        invariant Valid() && 0 <= ptr <= |data| && left == |data| - ptr
        invariant goal == dest + Fragments(crc, blockOffset, data[ptr..], begin)
        invariant goalOffset == EndOffset(blockOffset, data[ptr..])
        decreases left, HeaderOffset(blockOffset)
      {
        OneFragment(crc, dest, blockOffset, data[ptr..], begin);
        var fragmentLength := EmitFragment(data, ptr, begin);
        assert data[ptr..][fragmentLength..] == data[ptr + fragmentLength..];
        ptr := ptr + fragmentLength;
        left := left - fragmentLength;
        begin := false;
        if left == 0 {
          assert dest + [] == dest;
          break;
        }
      }
    }
  }

  lemma EndOffsetUnfolds(off: nat, data: bytes)
    requires off <= BLOCK_SIZE
    ensures var n := Fragment(off, data);
            var next := HeaderOffset(off) + HEADER_SIZE + n;
            EndOffset(off, data) == (if n == |data| then next else EndOffset(next, data[n..]))
  {
  }

  /** One iteration of the loop in AddRecord emits the first fragment. */
  lemma OneFragment(crc: CrcStep, dest: bytes, off: nat, rest: bytes, begin: bool)
    requires off <= BLOCK_SIZE
    ensures var n := Fragment(off, rest);
            var next := HeaderOffset(off) + HEADER_SIZE + n;
            var emitted := dest + Trailer(off) + Physical(crc, RecordType(begin, n == |rest|), rest[..n]);
            && dest + Fragments(crc, off, rest, begin) == emitted
              + (if n == |rest| then [] else Fragments(crc, next, rest[n..], false))
            && EndOffset(off, rest) == (if n == |rest| then next else EndOffset(next, rest[n..]))
  {
    var n := Fragment(off, rest);
    hide Fragments, Physical, Trailer, EndOffset, RecordType, HeaderOffset;
    FragmentsUnfold(crc, off, rest, begin);
    EndOffsetUnfolds(off, rest);
    var more := if n == |rest| then [] else Fragments(crc, HeaderOffset(off) + HEADER_SIZE + n, rest[n..], false);
    AppendAll(dest, Trailer(off), Physical(crc, RecordType(begin, n == |rest|), rest[..n]), more);
  }

  lemma AppendAll(a: bytes, b: bytes, c: bytes, d: bytes)
    ensures a + (b + c + d) == a + b + c + d
  {
    assert a + (b + c + d) == a + (b + c) + d;
  }

  class Reader {
    const crc: CrcStep
    const file: bytes
    const initialOffset: nat
    var filePos: nat
    var buffer: bytes
    var eof: bool
    var lastRecordOffset: nat
    var endOfBufferOffset: nat
    var resyncing: bool
    // The number of whole blocks read, as long as the end of the file was not seen.
    ghost var blocks: nat
    // The sizes passed to the reporter, in order.
    var reports: seq<nat>

    ghost predicate Valid()
      reads `filePos, `buffer, `eof, `endOfBufferOffset, `blocks
    {
      && |buffer| <= endOfBufferOffset
      && (buffer != [] ==>
        endOfBufferOffset <= |file| && buffer == file[endOfBufferOffset - |buffer|..endOfBufferOffset])
      && (if eof then
            buffer != [] ==> endOfBufferOffset == |file| < BlockEnd(endOfBufferOffset - |buffer|)
          else
            filePos == endOfBufferOffset == blocks * BLOCK_SIZE && |buffer| <= BLOCK_SIZE)
    }

    /** Nothing is left to read; where the reader thinks it stands no longer matters. */
    predicate AtEnd()
      reads `buffer, `eof
    {
      eof && buffer == []
    }

    /** The file position of the next unread byte. */
    ghost function Position(): (x: nat)
      requires Valid()
      reads `filePos, `buffer, `eof, `endOfBufferOffset, `blocks
      ensures AtEnd() ==> x >= |file|
    {
      if AtEnd() && endOfBufferOffset < |file| then |file| else endOfBufferOffset - |buffer|
    }

    constructor (crc: CrcStep, file: bytes, initialOffset: nat)
      ensures Valid() && this.crc == crc && this.file == file && this.initialOffset == initialOffset
      ensures Position() == 0 && resyncing == (initialOffset > 0) && lastRecordOffset == 0 && reports == []
      ensures !eof && buffer == []
    {
      this.crc := crc;
      this.file := file;
      this.initialOffset := initialOffset;
      filePos, buffer, eof, lastRecordOffset, endOfBufferOffset := 0, [], false, 0, 0;
      resyncing := initialOffset > 0;
      blocks := 0;
      reports := [];
    }

    method ReportCorruption(size: nat)
      requires Valid()
      modifies this`reports
      ensures reports == old(reports) + Drop(endOfBufferOffset - |buffer|, size, initialOffset)
    {
      var pos := endOfBufferOffset - |buffer|;
      if pos < size || pos - size >= initialOffset {
        reports := reports + [size];
      }
    }

    /** The result of a physical read that starts in state `p`. */
    twostate predicate Returned(p: PhysicalRecord, t: nat, fragment: bytes)
      requires Valid()
      reads this
    {
      && t == TypeOf(p)
      && reports == old(reports) + PhysicalDrops(p, initialOffset)
      && match p
         case PhysEof => eof && buffer == [] && Position() >= |file|
         case PhysBad(_, next) => Position() == next == endOfBufferOffset - |buffer|
         case PhysOk(_, data, next) => fragment == data && Position() == next == endOfBufferOffset - |buffer|
    }

    /** Refills the buffer one block at a time until it holds a header, then parses it. */
    method ReadPhysicalRecord() returns (t: nat, fragment: bytes)
      requires Valid()
      modifies this`filePos, this`buffer, this`eof, this`endOfBufferOffset, this`reports, this`blocks
      ensures Valid() && Returned(PhysicalAt(crc, file, old(Position()), initialOffset), t, fragment)
    {
      hide PhysicalAt, BlockEnd;
      while |buffer| < HEADER_SIZE
        invariant Valid() && reports == old(reports)
        invariant PhysicalAt(crc, file, Position(), initialOffset)
                  == PhysicalAt(crc, file, old(Position()), initialOffset)
        decreases !eof, (if |file| >= filePos then |file| - filePos else 0)
      {
        if eof {
          ShortTail(crc, file, Position(), initialOffset);
          buffer := [];
          return EOF_TYPE, [];
        }
        NextBlock(crc, file, Position(), blocks, initialOffset);
        Refill();
      }
      t, fragment := ParseBuffer();
    }

    /** Replaces the trailer left in the buffer by the next block of the file. */
    method Refill()
      requires Valid() && !eof
      modifies this`filePos, this`buffer, this`eof, this`endOfBufferOffset, this`blocks
      ensures Valid() && Position() == old(filePos)
      ensures eof || filePos > old(filePos)
      ensures filePos <= |file| || filePos == old(filePos)
    {
      hide BlockEnd;
      EndOfBlock(filePos, blocks + 1);
      var n := if filePos >= |file| then 0 else if |file| - filePos < BLOCK_SIZE then |file| - filePos else BLOCK_SIZE;
      buffer := if n == 0 then [] else file[filePos..filePos + n];
      filePos := filePos + n;
      endOfBufferOffset := endOfBufferOffset + |buffer|;
      blocks := blocks + 1;
      if |buffer| < BLOCK_SIZE {
        eof := true;
      }
    }

    lemma BufferIsNext()
      requires Valid() && |buffer| >= HEADER_SIZE
      ensures PhysicalAt(crc, file, Position(), initialOffset)
              == ParseHeader(crc, buffer, Position(), eof, initialOffset)
      ensures Position() == endOfBufferOffset - |buffer|
    {
      hide PhysicalAt, BlockEnd, ParseHeader;
      BufferIsBlock(crc, file, buffer, Position(), endOfBufferOffset, eof, blocks, initialOffset);
    }

    /** Gives up what is left in the buffer. */
    method DropBuffer() returns (dropSize: nat)
      requires Valid() && buffer != []
      modifies this`buffer
      ensures Valid() && dropSize == |old(buffer)| && buffer == []
      ensures Position() == endOfBufferOffset == old(Position()) + dropSize && (eof ==> Position() >= |file|)
    {
      dropSize := |buffer|;
      buffer := [];
    }

    /** Takes one record out of the buffer. */
    method TakeRecord(length: nat) returns (payload: bytes)
      requires Valid() && HEADER_SIZE + length <= |buffer|
      modifies this`buffer
      ensures Valid() && payload == old(buffer)[HEADER_SIZE..HEADER_SIZE + length]
      ensures Position() == endOfBufferOffset - |buffer| == old(Position()) + HEADER_SIZE + length
    {
      hide BlockEnd;
      ghost var x := Position();
      payload := buffer[HEADER_SIZE..HEADER_SIZE + length];
      buffer := buffer[HEADER_SIZE + length..];
      RestOfSlice(file, x, endOfBufferOffset, HEADER_SIZE + length);
      LaterInBlock(x, x + HEADER_SIZE + length, endOfBufferOffset);
    }

    /** The header checks of ReadPhysicalRecord. */
    method ParseBuffer() returns (t: nat, fragment: bytes)
      requires Valid() && |buffer| >= HEADER_SIZE
      modifies this`buffer, this`reports
      ensures Valid() && Returned(PhysicalAt(crc, file, old(Position()), initialOffset), t, fragment)
    {
      hide PhysicalAt, Crc, DecodeFixed, Unmask, Drop, StoredLength, Valid, Position;
      BufferIsNext();
      fragment := [];
      t := buffer[6];
      var length := StoredLength(buffer);
      if HEADER_SIZE + length > |buffer| {
        var dropSize := DropBuffer();
        if !eof {
          ReportCorruption(dropSize);
          return BAD_TYPE, [];
        }
        return EOF_TYPE, [];
      }
      if t == 0 && length == 0 {
        var dropSize := DropBuffer();
        return BAD_TYPE, [];
      }
      var expected := Unmask(DecodeFixed(buffer[..4]) % 0x1_0000_0000);
      var actual := Crc(crc, buffer[6..HEADER_SIZE + length]);
      if actual != expected {
        var dropSize := DropBuffer();
        ReportCorruption(dropSize);
        return BAD_TYPE, [];
      }
      var payload := TakeRecord(length);
      if endOfBufferOffset - |buffer| - HEADER_SIZE - length < initialOffset {
        return BAD_TYPE, [];
      }
      return t, payload;
    }

    method SkipToInitialBlock()
      requires Valid() && buffer == [] && (eof || filePos == 0)
      modifies this`endOfBufferOffset, this`filePos, this`blocks
      ensures Valid() && (!eof ==> Position() == InitialBlock(initialOffset))
    {
      var offsetInBlock := initialOffset % BLOCK_SIZE;
      var blockStartLocation := initialOffset - offsetInBlock;
      if offsetInBlock > BLOCK_SIZE - 6 {
        blockStartLocation := blockStartLocation + BLOCK_SIZE;
      }
      endOfBufferOffset := blockStartLocation;
      blocks := blockStartLocation / BLOCK_SIZE;
      if blockStartLocation > 0 {
        filePos := filePos + blockStartLocation;
      }
    }

    /** A reader that has not found a record yet starts over: from the beginning of the file, or at its end,
        where there is nothing more to find. */
    method ReadRecord() returns (found: bool, record: bytes)
      requires Valid()
      requires lastRecordOffset < initialOffset ==> buffer == [] && (eof || filePos == 0)
      modifies this
      ensures Valid()
      ensures var x := if old(lastRecordOffset) < initialOffset && !old(eof) then InitialBlock(initialOffset)
              else old(Position());
              var r := RecordFrom(crc, file, x, initialOffset, old(resyncing), NoPartial, old(reports));
              && found == r.record.Some?
              && (found ==> record == r.record.value && lastRecordOffset == r.offset)
              && (found ==> Position() == r.next)
              && (!found ==> lastRecordOffset == old(lastRecordOffset))
              && resyncing == r.resyncing && reports == r.drops
    {
      hide PhysicalAt, RecordFrom, OnPhysical, Drop, Valid, Position;
      if lastRecordOffset < initialOffset {
        SkipToInitialBlock();
        if eof {
          PastTheEnd(crc, file, Position(), old(Position()), initialOffset, resyncing, reports);
        }
      }
      var scratch: bytes := [];
      var inFragmentedRecord := false;
      var prospectiveRecordOffset: nat := 0;
      ghost var partial := NoPartial;
      ghost var goal := RecordFrom(crc, file, Position(), initialOffset, resyncing, partial, reports);
      while true
        invariant Valid() && lastRecordOffset == old(lastRecordOffset)
        invariant partial == if inFragmentedRecord then Partial(prospectiveRecordOffset, scratch) else NoPartial
        invariant goal == RecordFrom(crc, file, Position(), initialOffset, resyncing, partial, reports)
        decreases if |file| >= Position() then |file| - Position() else 0
      {
        RecordUnfolds(crc, file, Position(), initialOffset, resyncing, partial, reports);
        var done;
        done, found, record, inFragmentedRecord, prospectiveRecordOffset, scratch, partial :=
          ReadFragment(inFragmentedRecord, prospectiveRecordOffset, scratch);
        if done {
          return;
        }
      }
    }

    /** The result of handling one physical record in ReadRecord. */
    twostate predicate Handled(o: Outcome, done: bool, found: bool, record: bytes, partial: Partial)
      requires Valid()
      reads this
    {
      match o
      case Done(r) =>
        && done && found == r.record.Some? && reports == old(reports) + r.drops && resyncing == r.resyncing
        && (found ==> record == r.record.value && lastRecordOffset == r.offset && Position() == r.next)
        && (!found ==> lastRecordOffset == old(lastRecordOffset))
      case More(drops, resyncing', partial') =>
        && !done && reports == old(reports) + drops && resyncing == resyncing' && partial == partial'
        && lastRecordOffset == old(lastRecordOffset)
    }

    /** One iteration of the loop in ReadRecord. */
    method ReadFragment(inFragmentedRecord0: bool, prospectiveRecordOffset0: nat, scratch0: bytes)
      returns (done: bool, found: bool, record: bytes,
               inFragmentedRecord: bool, prospectiveRecordOffset: nat, scratch: bytes, ghost partial: Partial)
      requires Valid()
      modifies this
      ensures Valid()
      ensures var p := PhysicalAt(crc, file, old(Position()), initialOffset);
              var partial0 := if inFragmentedRecord0 then Partial(prospectiveRecordOffset0, scratch0) else NoPartial;
              && Handled(OnPhysical(p, initialOffset, old(resyncing), partial0), done, found, record, partial)
              && (p.PhysBad? || p.PhysOk? ==> Position() == p.next)
              && (!done || found ==> p.PhysBad? || p.PhysOk?)
      ensures partial == if inFragmentedRecord then Partial(prospectiveRecordOffset, scratch) else NoPartial
    {
      hide PhysicalAt, Drop, Valid, Position;
      ghost var p := PhysicalAt(crc, file, Position(), initialOffset);
      inFragmentedRecord, prospectiveRecordOffset, scratch := inFragmentedRecord0, prospectiveRecordOffset0, scratch0;
      done, found, record := false, false, [];
      partial := if inFragmentedRecord then Partial(prospectiveRecordOffset, scratch) else NoPartial;
      ghost var before, o := reports, OnPhysical(p, initialOffset, resyncing, partial);
      assert before + [] == before;
      var recordType, fragment := ReadPhysicalRecord();
      var physicalRecordOffset := endOfBufferOffset - |buffer| - HEADER_SIZE - |fragment|;
      if resyncing {
        if recordType == MIDDLE {
          return;
        } else if recordType == LAST {
          resyncing := false;
          return;
        } else {
          resyncing := false;
        }
      }
      if recordType == FULL {
        if inFragmentedRecord && scratch != [] {
          ReportCorruption(|scratch|);
        }
        lastRecordOffset := physicalRecordOffset;
        done, found, record := true, true, fragment;
      } else if recordType == FIRST {
        if inFragmentedRecord && scratch != [] {
          ReportCorruption(|scratch|);
        }
        prospectiveRecordOffset := physicalRecordOffset;
        scratch := fragment;
        inFragmentedRecord := true;
      } else if recordType == MIDDLE {
        if !inFragmentedRecord {
          ReportCorruption(|fragment|);
        } else {
          scratch := scratch + fragment;
        }
      } else if recordType == LAST {
        if !inFragmentedRecord {
          ReportCorruption(|fragment|);
        } else {
          scratch := scratch + fragment;
          lastRecordOffset := prospectiveRecordOffset;
          done, found, record := true, true, scratch;
        }
      } else if recordType == EOF_TYPE {
        done := true;
      } else if recordType == BAD_TYPE {
        if inFragmentedRecord {
          ReportCorruption(|scratch|);
          inFragmentedRecord := false;
          scratch := [];
        }
      } else {
        ReportCorruption(|fragment| + (if inFragmentedRecord then |scratch| else 0));
        inFragmentedRecord := false;
        scratch := [];
      }
      partial := if inFragmentedRecord then Partial(prospectiveRecordOffset, scratch) else NoPartial;
      assert reports == before + (if o.Done? then o.result.drops else o.drops);
    }
  }

  // ----- Positions and blocks ----------------------------------------------------------

  lemma EndOfBlock(x: nat, blocks: nat)
    requires x < blocks * BLOCK_SIZE <= x + BLOCK_SIZE
    ensures BlockEnd(x) == blocks * BLOCK_SIZE
  {
  }

  /** A short rest of a full block is a trailer: reading continues at the next block. */
  lemma NextBlock(crc: CrcStep, file: bytes, x: nat, blocks: nat, initialOffset: nat)
    requires x <= blocks * BLOCK_SIZE < x + HEADER_SIZE
    requires x < blocks * BLOCK_SIZE ==> blocks * BLOCK_SIZE <= |file|
    ensures PhysicalAt(crc, file, x, initialOffset) == PhysicalAt(crc, file, blocks * BLOCK_SIZE, initialOffset)
  {
    if x < blocks * BLOCK_SIZE {
      EndOfBlock(x, blocks);
    }
  }

  lemma ShortTail(crc: CrcStep, file: bytes, x: nat, initialOffset: nat)
    requires x < |file| ==> |file| - x < HEADER_SIZE && |file| < BlockEnd(x)
    ensures PhysicalAt(crc, file, x, initialOffset) == PhysEof
  {
  }

  /** All positions behind the end are alike. */
  lemma PastTheEnd(crc: CrcStep, file: bytes, x: nat, y: nat, initialOffset: nat, resyncing: bool, reports: seq<nat>)
    requires x >= |file| && y >= |file|
    ensures RecordFrom(crc, file, x, initialOffset, resyncing, NoPartial, reports)
            == RecordFrom(crc, file, y, initialOffset, resyncing, NoPartial, reports)
  {
    RecordUnfolds(crc, file, x, initialOffset, resyncing, NoPartial, reports);
    RecordUnfolds(crc, file, y, initialOffset, resyncing, NoPartial, reports);
  }

  lemma BufferIsBlock(crc: CrcStep, file: bytes, buffer: bytes, x: nat, end: nat, eof: bool, blocks: nat,
      initialOffset: nat)
    requires x + HEADER_SIZE <= end <= |file| && buffer == file[x..end]
    requires if eof then end == |file| < BlockEnd(x) else end == blocks * BLOCK_SIZE && end <= x + BLOCK_SIZE
    ensures PhysicalAt(crc, file, x, initialOffset) == ParseHeader(crc, buffer, x, eof, initialOffset)
  {
    if !eof {
      EndOfBlock(x, blocks);
    }
  }

  lemma RestOfSlice(s: bytes, lo: nat, hi: nat, n: nat)
    requires lo + n <= hi <= |s|
    ensures s[lo..hi][n..] == s[lo + n..hi]
  {
  }

  lemma LaterInBlock(x: nat, y: nat, end: nat)
    requires x <= y <= end
    ensures y < end < BlockEnd(x) ==> BlockEnd(y) == BlockEnd(x)
  {
    if y < end < BlockEnd(x) {
      EndOfBlock(y, x / BLOCK_SIZE + 1);
    }
  }
}
