/** Reading back what AddRecord wrote: whole files, files torn at any byte, and files continued by
    a second writer. */
module LogRoundTrip {
  import opened Coding
  import opened LogFormat
  import opened Options

  /** File position `x` is at offset `off` of its block. */
  ghost predicate InBlock(x: nat, off: nat)
  {
    off <= BLOCK_SIZE && (x - off) % BLOCK_SIZE == 0
  }

  lemma Shift(x: nat, off: nat, n: nat)
    requires InBlock(x, off) && off + n <= BLOCK_SIZE
    ensures InBlock(x + n, off + n)
  {
    assert x + n - (off + n) == x - off;
  }

  /** The file agrees with `s` from position `x` on, as far as it goes. */
  ghost predicate Agrees(file: bytes, x: nat, s: bytes)
  {
    && x <= |file|
    && (if x + |s| <= |file| then file[x..x + |s|] == s else file[x..] == s[..|file| - x])
  }

  lemma AgreesSplit(file: bytes, x: nat, a: bytes, b: bytes)
    requires Agrees(file, x, a + b)
    ensures Agrees(file, x, a)
    ensures x + |a| <= |file| ==> Agrees(file, x + |a|, b)
  {
    if x + |a + b| <= |file| {
      assert file[x..x + |a|] == file[x..x + |a + b|][..|a|] == a;
      assert file[x + |a|..x + |a| + |b|] == file[x..x + |a + b|][|a|..] == b;
    } else {
      var n := |file| - x;
      if |a| <= n {
        assert file[x..x + |a|] == file[x..][..|a|] == (a + b)[..n][..|a|] == a;
        assert file[x + |a|..] == file[x..][|a|..] == (a + b)[..n][|a|..] == b[..n - |a|];
      } else {
        assert file[x..] == (a + b)[..n] == a[..n];
      }
    }
  }

  // ----- One physical record -----------------------------------------------------------

  lemma EndOfBlock(x: nat, off: nat)
    requires InBlock(x, off) && off < BLOCK_SIZE
    ensures BlockEnd(x) == x - off + BLOCK_SIZE
  {
  }

  lemma HeaderBytes(crc: CrcStep, t: byte, data: bytes)
    requires |data| < 0x1_0000
    ensures var h := Header(crc, t, data);
            StoredLength(h) == |data| && h[6] == t
            && Unmask(DecodeFixed(h[..4]) % 0x1_0000_0000) == Crc(crc, [t] + data)
  {
    hide Mask, Unmask, Crc;
    var sum := Mask(Crc(crc, [t] + data));
    Pow256Of4();
    FixedRoundTrip(sum, 4);
    UnmaskMask(Crc(crc, [t] + data));
    assert Header(crc, t, data)[..4] == EncodeFixed(sum, 4);
  }

  lemma ParsesHeader(crc: CrcStep, buffer: bytes, x: nat, eof: bool, initialOffset: nat, t: byte, data: bytes)
    requires |data| < 0x1_0000 && t > 0 && |buffer| >= HEADER_SIZE
    requires |buffer| < HEADER_SIZE + |data| ==> eof
    requires Agrees(buffer, 0, Physical(crc, t, data))
    ensures ParseHeader(crc, buffer, x, eof, initialOffset) ==
              if |buffer| < HEADER_SIZE + |data| then PhysEof
              else if x < initialOffset then PhysBad(None, x + HEADER_SIZE + |data|)
              else PhysOk(t, data, x + HEADER_SIZE + |data|)
  {
    var header := Header(crc, t, data);
    AgreesSplit(buffer, 0, header, data);
    HeaderBytes(crc, t, data);
    assert buffer[..HEADER_SIZE] == header;
    assert buffer[4] == header[4] && buffer[5] == header[5] && buffer[6] == header[6];
    assert buffer[..4] == header[..4];
    if |buffer| >= HEADER_SIZE + |data| {
      assert buffer[HEADER_SIZE..HEADER_SIZE + |data|] == data;
      assert buffer[6..HEADER_SIZE + |data|] == [t] + data;
    }
  }

  /** At a header position. */
  lemma ReadsAtHeader(crc: CrcStep, file: bytes, x: nat, off: nat, initialOffset: nat, t: byte, data: bytes)
    requires InBlock(x, off) && off + HEADER_SIZE + |data| <= BLOCK_SIZE && t > 0
    requires Agrees(file, x, Physical(crc, t, data))
    ensures PhysicalAt(crc, file, x, initialOffset) ==
              if |file| < x + HEADER_SIZE + |data| then PhysEof
              else if x < initialOffset then PhysBad(None, x + HEADER_SIZE + |data|)
              else PhysOk(t, data, x + HEADER_SIZE + |data|)
  {
    EndOfBlock(x, off);
    var end := Min(BlockEnd(x), |file|);
    if end - x >= HEADER_SIZE {
      var buffer := file[x..end];
      assert Agrees(buffer, 0, Physical(crc, t, data)) by {
        if |file| < x + HEADER_SIZE + |data| {
          assert buffer == file[x..];
        } else {
          assert end >= x + HEADER_SIZE + |data|;
          assert buffer[0..HEADER_SIZE + |data|] == file[x..x + HEADER_SIZE + |data|];
        }
      }
      ParsesHeader(crc, buffer, x, |file| < BlockEnd(x), initialOffset, t, data);
    }
  }

  /** From the end of the previous physical record, over the trailer if there is one. */
  lemma ReadsPhysical(crc: CrcStep, file: bytes, x: nat, off: nat, initialOffset: nat, t: byte, data: bytes)
    requires InBlock(x, off) && HeaderOffset(off) + HEADER_SIZE + |data| <= BLOCK_SIZE && t > 0
    requires Agrees(file, x, Trailer(off) + Physical(crc, t, data))
    ensures var h := x + |Trailer(off)|;
            PhysicalAt(crc, file, x, initialOffset) ==
              if |file| < h + HEADER_SIZE + |data| then PhysEof
              else if h < initialOffset then PhysBad(None, h + HEADER_SIZE + |data|)
              else PhysOk(t, data, h + HEADER_SIZE + |data|)
    ensures InBlock(x + |Trailer(off)|, HeaderOffset(off))
  {
    var h := x + |Trailer(off)|;
    AfterTrailer(x, off);
    AgreesSplit(file, x, Trailer(off), Physical(crc, t, data));
    if |Trailer(off)| > 0 {
      EndOfBlock(x, off);
      assert BlockEnd(x) == h;
    }
    if h <= |file| {
      ReadsAtHeader(crc, file, h, HeaderOffset(off), initialOffset, t, data);
    }
  }

  lemma AfterTrailer(x: nat, off: nat)
    requires InBlock(x, off)
    ensures InBlock(x + |Trailer(off)|, HeaderOffset(off))
  {
    if BLOCK_SIZE - off < HEADER_SIZE {
      assert x + |Trailer(off)| - 0 == x - off + BLOCK_SIZE;
    }
  }

  lemma {:induction false} FragmentsEnd(crc: CrcStep, x: nat, off: nat, data: bytes, begin: bool)
    requires InBlock(x, off)
    ensures InBlock(x + |Fragments(crc, off, data, begin)|, EndOffset(off, data))
    decreases |data|, HeaderOffset(off)
  {
    var n := Fragment(off, data);
    var next := HeaderOffset(off) + HEADER_SIZE + n;
    AfterTrailer(x, off);
    Shift(x + |Trailer(off)|, HeaderOffset(off), HEADER_SIZE + n);
    if n != |data| {
      FragmentsEnd(crc, x + |Trailer(off)| + HEADER_SIZE + n, next, data[n..], false);
    }
  }

  // ----- One logical record ------------------------------------------------------------

  /** What the reader makes of the first fragment of a record, or of its next one. */
  lemma ReadsFirstFragment(crc: CrcStep, file: bytes, x: nat, off: nat, data: bytes, partial: Partial,
                           initialOffset: nat, resyncing: bool, drops: seq<nat>)
    requires off <= BLOCK_SIZE && InBlock(x, off)
    requires x + |Trailer(off)| >= initialOffset && (partial.Partial? ==> !resyncing)
    requires var n := Fragment(off, data);
             Agrees(file, x, Trailer(off) + Physical(crc, RecordType(partial.NoPartial?, n == |data|), data[..n]))
    ensures var n := Fragment(off, data);
            var h := x + |Trailer(off)|;
            var start := if partial.Partial? then partial.offset else h;
            var scratch := (if partial.Partial? then partial.scratch else []) + data[..n];
            RecordFrom(crc, file, x, initialOffset, resyncing, partial, drops)
            == (if |file| < h + HEADER_SIZE + n then ReadResult(None, 0, 0, false, drops)
                else if n == |data| then ReadResult(Some(scratch), start, h + HEADER_SIZE + n, false, drops)
                else RecordFrom(crc, file, h + HEADER_SIZE + n, initialOffset, false, Partial(start, scratch), drops))
  {
    hide RecordFrom, PhysicalAt, Agrees, Physical, InBlock;
    var n := Fragment(off, data);
    ReadsPhysical(crc, file, x, off, initialOffset, RecordType(partial.NoPartial?, n == |data|), data[..n]);
    RecordUnfolds(crc, file, x, initialOffset, resyncing, partial, drops);
    assert drops + [] == drops && [] + data[..n] == data[..n];
  }

  /** A record read from `x` on with nothing before it skipped: returned when the file holds all of
      it, otherwise the end of the file is reported without a word. */
  lemma {:induction false} ReadsFragments(crc: CrcStep, file: bytes, x: nat, off: nat, data: bytes, partial: Partial,
                                          initialOffset: nat, resyncing: bool, drops: seq<nat>)
    requires off <= BLOCK_SIZE && InBlock(x, off) && Agrees(file, x, Fragments(crc, off, data, partial.NoPartial?))
    requires x + |Trailer(off)| >= initialOffset
    requires partial.Partial? ==> !resyncing
    ensures var end := x + |Fragments(crc, off, data, partial.NoPartial?)|;
            var r := RecordFrom(crc, file, x, initialOffset, resyncing, partial, drops);
            && r.drops == drops
            && (if |file| < end then r.record == None
                else r.record == Some((if partial.Partial? then partial.scratch else []) + data)
                     && r.next == end && !r.resyncing
                     && r.offset == (if partial.Partial? then partial.offset else x + |Trailer(off)|))
    decreases |data|, HeaderOffset(off)
  {
    hide RecordFrom, Agrees, Physical, InBlock, Fragments;
    var begin := partial.NoPartial?;
    var n := Fragment(off, data);
    var h := x + |Trailer(off)|;
    var next := HeaderOffset(off) + HEADER_SIZE + n;
    var tail := if n == |data| then [] else Fragments(crc, next, data[n..], false);
    var first := Trailer(off) + Physical(crc, RecordType(begin, n == |data|), data[..n]);
    FragmentsUnfold(crc, off, data, begin);
    AgreesSplit(file, x, first, tail);
    ReadsFirstFragment(crc, file, x, off, data, partial, initialOffset, resyncing, drops);
    AfterTrailer(x, off);
    Shift(h, HeaderOffset(off), HEADER_SIZE + n);
    if n == |data| {
      assert data[..n] == data;
    } else if h + HEADER_SIZE + n <= |file| {
      var scratch := if begin then [] else partial.scratch;
      assert scratch + data[..n] + data[n..] == scratch + data;
      var partial' := Partial(if begin then h else partial.offset, scratch + data[..n]);
      ReadsFragments(crc, file, h + HEADER_SIZE + n, next, data[n..], partial', initialOffset, false, drops);
    }
  }

  // ----- Whole files -------------------------------------------------------------------

  /** Repeated ReadRecord until it returns false: the records and everything reported. */
  function ReadAll(crc: CrcStep, file: bytes, x: nat, initialOffset: nat, resyncing: bool): (r: (seq<bytes>, seq<nat>))
    decreases |file| - x
  {
    var r := RecordFrom(crc, file, x, initialOffset, resyncing, NoPartial, []);
    if r.record == None then ([], r.drops)
    else
      var rest := ReadAll(crc, file, r.next, initialOffset, r.resyncing);
      ([r.record.value] + rest.0, r.drops + rest.1)
  }

  /** `got` are the leading records that lie wholly in the first `length` bytes. */
  ghost predicate WhollyIn(crc: CrcStep, length: nat, x: nat, off: nat, records: seq<bytes>, got: seq<bytes>)
    requires off <= BLOCK_SIZE
  {
    && got <= records
    && x + |Records(crc, off, got)| <= length
    && (|got| < |records| ==> length < x + |Records(crc, off, records[..|got| + 1])|)
  }

  lemma OneRecord(crc: CrcStep, off: nat, record: bytes)
    requires off <= BLOCK_SIZE
    ensures Records(crc, off, [record]) == Fragments(crc, off, record, true)
  {
    hide Fragments, EndOffset;
    assert [record][1..] == [];
  }

  lemma NoneWhollyIn(crc: CrcStep, length: nat, x: nat, off: nat, records: seq<bytes>)
    requires off <= BLOCK_SIZE && records != [] && x <= length < x + |Fragments(crc, off, records[0], true)|
    ensures WhollyIn(crc, length, x, off, records, [])
  {
    hide Fragments, EndOffset;
    assert records[..1] == [records[0]];
    OneRecord(crc, off, records[0]);
  }

  lemma OneMoreWhollyIn(crc: CrcStep, length: nat, x: nat, off: nat, records: seq<bytes>, got: seq<bytes>)
    requires off <= BLOCK_SIZE && records != []
    requires WhollyIn(crc, length, x + |Fragments(crc, off, records[0], true)|, EndOffset(off, records[0]),
             records[1..], got)
    ensures WhollyIn(crc, length, x, off, records, [records[0]] + got)
  {
    hide Fragments, EndOffset;
    assert ([records[0]] + got)[1..] == got;
    if |got| < |records[1..]| {
      var more := records[..|got| + 2];
      assert more[0] == records[0] && more[1..] == records[1..][..|got| + 1];
    }
  }

  lemma ReadAllUnfolds(crc: CrcStep, file: bytes, x: nat, initialOffset: nat, resyncing: bool)
    ensures var r := RecordFrom(crc, file, x, initialOffset, resyncing, NoPartial, []);
            ReadAll(crc, file, x, initialOffset, resyncing)
            == (if r.record == None then ([], r.drops)
                else var rest := ReadAll(crc, file, r.next, initialOffset, r.resyncing);
                     ([r.record.value] + rest.0, r.drops + rest.1))
  {
    hide RecordFrom;
  }

  lemma NothingLeft(crc: CrcStep, file: bytes, initialOffset: nat, resyncing: bool)
    ensures ReadAll(crc, file, |file|, initialOffset, resyncing) == ([], [])
  {
    hide RecordFrom;
    assert PhysicalAt(crc, file, |file|, initialOffset) == PhysEof;
    var none: seq<nat> := [];
    assert none + none == none;
    RecordUnfolds(crc, file, |file|, initialOffset, resyncing, NoPartial, none);
  }

  lemma {:induction false} ReadsRecords(crc: CrcStep, file: bytes, x: nat, off: nat, records: seq<bytes>,
                                        initialOffset: nat, resyncing: bool)
    requires off <= BLOCK_SIZE && InBlock(x, off) && Agrees(file, x, Records(crc, off, records))
             && |file| <= x + |Records(crc, off, records)|
    requires x + |Trailer(off)| >= initialOffset
    ensures ReadAll(crc, file, x, initialOffset, resyncing).1 == []
    ensures WhollyIn(crc, |file|, x, off, records, ReadAll(crc, file, x, initialOffset, resyncing).0)
    decreases records
  {
    hide Fragments, RecordFrom, EndOffset, InBlock, ReadAll, WhollyIn, Agrees;
    if records == [] {
      assert |file| == x by { AgreesInFile(file, x, Records(crc, off, records)); }
      NothingLeft(crc, file, initialOffset, resyncing);
      assert WhollyIn(crc, |file|, x, off, records, []) by { NoRecords(crc, x, off); }
    } else {
      var frags := Fragments(crc, off, records[0], true);
      var end := x + |frags|;
      AgreesSplit(file, x, frags, Records(crc, EndOffset(off, records[0]), records[1..]));
      AgreesInFile(file, x, frags);
      FragmentsEnd(crc, x, off, records[0], true);
      ReadsFragments(crc, file, x, off, records[0], NoPartial, initialOffset, resyncing, []);
      assert [] + records[0] == records[0];
      ReadAllUnfolds(crc, file, x, initialOffset, resyncing);
      if end <= |file| {
        ReadsRecords(crc, file, end, EndOffset(off, records[0]), records[1..], initialOffset, false);
        OneMoreWhollyIn(crc, |file|, x, off, records, ReadAll(crc, file, end, initialOffset, false).0);
      } else {
        NoneWhollyIn(crc, |file|, x, off, records);
      }
    }
  }

  lemma AgreesInFile(file: bytes, x: nat, s: bytes)
    requires Agrees(file, x, s)
    ensures x <= |file|
  {
  }

  lemma NoRecords(crc: CrcStep, x: nat, off: nat)
    requires off <= BLOCK_SIZE
    ensures WhollyIn(crc, x, x, off, [], [])
  {
  }

  /** Torn-log safety. For every byte prefix of a file AddRecord produced, reading from the start
      returns exactly the records wholly inside the prefix, in order, and reports nothing. */
  lemma TornLog(crc: CrcStep, records: seq<bytes>, n: nat)
    requires n <= |Records(crc, 0, records)|
    ensures var (got, drops) := ReadAll(crc, Records(crc, 0, records)[..n], 0, 0, false);
            && drops == []
            && got <= records
            && |Records(crc, 0, got)| <= n
            && (|got| < |records| ==> n < |Records(crc, 0, records[..|got| + 1])|)
  {
    hide Fragments, ReadAll;
    ReadsRecords(crc, Records(crc, 0, records)[..n], 0, 0, records, 0, false);
  }

  /** The log round trip, for records of any length. */
  lemma LogRoundTrip(crc: CrcStep, records: seq<bytes>)
    ensures ReadAll(crc, Records(crc, 0, records), 0, 0, false) == (records, [])
  {
    var file := Records(crc, 0, records);
    assert file[..|file|] == file;
    TornLog(crc, records, |file|);
    var got := ReadAll(crc, file, 0, 0, false).0;
    if |got| < |records| {
      RecordsMonotone(crc, 0, records, |got| + 1);
      assert false;
    }
    assert got == records;
  }

  lemma {:induction false} RecordsMonotone(crc: CrcStep, off: nat, records: seq<bytes>, n: nat)
    requires off <= BLOCK_SIZE && n <= |records|
    ensures |Records(crc, off, records[..n])| <= |Records(crc, off, records)|
    decreases records
  {
    if n > 0 {
      assert records[..n][0] == records[0] && records[..n][1..] == records[1..][..n - 1];
      RecordsMonotone(crc, EndOffset(off, records[0]), records[1..], n - 1);
    }
  }

  // ----- Continuing a file -------------------------------------------------------------

  /** A full block and a new block are the same place to the writer. */
  lemma FullBlockIsNewBlock(crc: CrcStep, records: seq<bytes>)
    ensures Records(crc, BLOCK_SIZE, records) == Records(crc, 0, records)
  {
    if records != [] {
      var data := records[0];
      assert HeaderOffset(BLOCK_SIZE) == HeaderOffset(0) && Trailer(BLOCK_SIZE) == Trailer(0) == [];
      assert Fragment(BLOCK_SIZE, data) == Fragment(0, data);
      assert Fragments(crc, BLOCK_SIZE, data, true) == Fragments(crc, 0, data, true);
      assert EndOffset(BLOCK_SIZE, data) == EndOffset(0, data);
    }
  }

  /** The offset a writer opened on the file's length computes is as good as the one kept. */
  lemma ReopenedOffset(crc: CrcStep, x: nat, off: nat, records: seq<bytes>)
    requires InBlock(x, off)
    ensures Records(crc, off, records) == Records(crc, x % BLOCK_SIZE, records)
  {
    hide Records;
    if off == BLOCK_SIZE {
      FullBlockIsNewBlock(crc, records);
      assert x % BLOCK_SIZE == 0;
    } else {
      assert x % BLOCK_SIZE == off;
    }
  }

  /** Stopping after any number of records and resuming with a writer opened on the file's length
      gives the bytes one writer would have produced. */
  lemma {:induction false} ResumeIsSeamless(crc: CrcStep, x: nat, off: nat, a: seq<bytes>, b: seq<bytes>)
    requires off <= BLOCK_SIZE && InBlock(x, off)
    ensures Records(crc, off, a + b) == Records(crc, off, a)
            + Records(crc, (x + |Records(crc, off, a)|) % BLOCK_SIZE, b)
    decreases a
  {
    hide Records, Fragments, EndOffset, InBlock;
    RecordsUnfold(crc, off, a);
    RecordsUnfold(crc, off, a + b);
    if a == [] {
      assert a + b == b;
      ReopenedOffset(crc, x, off, b);
    } else {
      FragmentsEnd(crc, x, off, a[0], true);
      assert (a + b)[1..] == a[1..] + b;
      ResumeIsSeamless(crc, x + |Fragments(crc, off, a[0], true)|, EndOffset(off, a[0]), a[1..], b);
    }
  }

  lemma RecordsUnfold(crc: CrcStep, off: nat, records: seq<bytes>)
    requires off <= BLOCK_SIZE
    ensures Records(crc, off, records)
            == (if records == [] then []
                else Fragments(crc, off, records[0], true) + Records(crc, EndOffset(off, records[0]), records[1..]))
  {
  }
}
