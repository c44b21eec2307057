/** Reading a log from an initial offset (db/log_reader.cc, SkipToInitialBlock and the resyncing
    logic): which records come back, and when a drop is reported that is none. */
module LogInitialOffset {
  import opened Coding
  import opened LogFormat
  import opened LogRoundTrip
  import opened Options

  /** The records whose first header lies at or after `initialOffset`, when the first of them is
      written from position `x`, at offset `off` of its block. */
  function RecordsFrom(crc: CrcStep, x: nat, off: nat, records: seq<bytes>, initialOffset: nat): seq<bytes>
    requires off <= BLOCK_SIZE
    decreases records
  {
    if records == [] || x + |Trailer(off)| >= initialOffset then records
    else RecordsFrom(crc, x + |Fragments(crc, off, records[0], true)|, EndOffset(off, records[0]), records[1..],
      initialOffset)
  }

  /** The record written from `x` has a fragment before `initialOffset` and a later one at or after it. */
  predicate Straddles(x: nat, off: nat, data: bytes, initialOffset: nat)
    requires off <= BLOCK_SIZE
    decreases |data|, HeaderOffset(off)
  {
    var n := Fragment(off, data);
    var h := x + |Trailer(off)|;
    && h < initialOffset && n < |data|
    && (h + HEADER_SIZE + n >= initialOffset
      || Straddles(h + HEADER_SIZE + n, HeaderOffset(off) + HEADER_SIZE + n, data[n..], initialOffset))
  }

  /** Some record straddles the initial offset. */
  predicate AnyStraddles(crc: CrcStep, x: nat, off: nat, records: seq<bytes>, initialOffset: nat)
    requires off <= BLOCK_SIZE
    decreases records
  {
    records != [] && x + |Trailer(off)| < initialOffset
    && (Straddles(x, off, records[0], initialOffset)
        || AnyStraddles(crc, x + |Fragments(crc, off, records[0], true)|, EndOffset(off, records[0]), records[1..],
          initialOffset))
  }

  // ----- Skipping ----------------------------------------------------------------------

  /** What was reported earlier does not matter to the rest of a read. */
  lemma {:induction false} EarlierDrops(crc: CrcStep, file: bytes, x: nat, initialOffset: nat, resyncing: bool,
      partial: Partial, drops: seq<nat>, more: seq<nat>)
    ensures RecordFrom(crc, file, x, initialOffset, resyncing, partial, drops + more)
            == Reported(RecordFrom(crc, file, x, initialOffset, resyncing, partial, more), drops)
    decreases |file| - x
  {
    hide RecordFrom, PhysicalAt, OnPhysical;
    RecordUnfolds(crc, file, x, initialOffset, resyncing, partial, drops + more);
    RecordUnfolds(crc, file, x, initialOffset, resyncing, partial, more);
    var p := PhysicalAt(crc, file, x, initialOffset);
    var o := OnPhysical(p, initialOffset, resyncing, partial);
    if o.Done? {
      assert drops + more + o.result.drops == drops + (more + o.result.drops);
    } else {
      MoreMovesOn(p, initialOffset, resyncing, partial);
      EarlierDrops(crc, file, p.next, initialOffset, o.resyncing, o.partial, drops, more + o.drops);
      assert drops + more + o.drops == drops + (more + o.drops);
    }
  }

  lemma MoreMovesOn(p: PhysicalRecord, initialOffset: nat, resyncing: bool, partial: Partial)
    requires p.PhysOk? ==> p.next >= HEADER_SIZE + |p.data|
    requires OnPhysical(p, initialOffset, resyncing, partial).More?
    ensures p.PhysBad? || p.PhysOk?
  {
  }

  /** One fragment of a record whose beginning is not read. */
  lemma SkipsFragment(crc: CrcStep, file: bytes, x: nat, off: nat, data: bytes, begin: bool, initialOffset: nat,
                      resyncing: bool, drops: seq<nat>) returns (resyncing': bool, more: seq<nat>)
    requires off <= BLOCK_SIZE && InBlock(x, off) && (begin ==> x + |Trailer(off)| < initialOffset)
    requires var n := Fragment(off, data);
             && Agrees(file, x, Trailer(off) + Physical(crc, RecordType(begin, n == |data|), data[..n]))
             && x + |Trailer(off)| + HEADER_SIZE + n <= |file|
    ensures RecordFrom(crc, file, x, initialOffset, resyncing, NoPartial, drops)
            == RecordFrom(crc, file, x + |Trailer(off)| + HEADER_SIZE + Fragment(off, data), initialOffset,
              resyncing', NoPartial, drops + more)
    ensures more == [] <==> resyncing || x + |Trailer(off)| < initialOffset
    ensures resyncing' <==> resyncing && x + |Trailer(off)| >= initialOffset && Fragment(off, data) < |data|
  {
    hide RecordFrom, PhysicalAt, Agrees, Physical, InBlock;
    var n := Fragment(off, data);
    var t := RecordType(begin, n == |data|);
    ReadsPhysical(crc, file, x, off, initialOffset, t, data[..n]);
    RecordUnfolds(crc, file, x, initialOffset, resyncing, NoPartial, drops);
    var o := OnPhysical(PhysicalAt(crc, file, x, initialOffset), initialOffset, resyncing, NoPartial);
    resyncing', more := o.resyncing, o.drops;
  }

  lemma FullBlock(off: nat, data: bytes)
    requires off <= BLOCK_SIZE && Fragment(off, data) < |data|
    ensures HeaderOffset(off) + HEADER_SIZE + Fragment(off, data) == BLOCK_SIZE && Trailer(BLOCK_SIZE) == []
  {
  }

  /** A record whose beginning is not read: all its fragments are passed over, and a drop is reported
      when a skipped fragment is followed by one that is not. */
  lemma {:induction false} SkipsFragments(crc: CrcStep, file: bytes, x: nat, off: nat, data: bytes, begin: bool,
      initialOffset: nat, resyncing: bool, drops: seq<nat>) returns (resyncing': bool, more: seq<nat>)
    requires off <= BLOCK_SIZE && InBlock(x, off) && (begin ==> x + |Trailer(off)| < initialOffset)
    requires Agrees(file, x, Fragments(crc, off, data, begin)) && x + |Fragments(crc, off, data, begin)| <= |file|
    ensures RecordFrom(crc, file, x, initialOffset, resyncing, NoPartial, drops)
            == RecordFrom(crc, file, x + |Fragments(crc, off, data, begin)|, initialOffset, resyncing', NoPartial,
              drops + more)
    ensures more == []
            <==> !(Straddles(x, off, data, initialOffset) || (!resyncing && x + |Trailer(off)| >= initialOffset))
    decreases |data|, HeaderOffset(off)
  {
    hide RecordFrom, Agrees, Physical, InBlock, Fragments, Trailer;
    var n := Fragment(off, data);
    var next := x + |Trailer(off)| + HEADER_SIZE + n;
    var first := Trailer(off) + Physical(crc, RecordType(begin, n == |data|), data[..n]);
    FragmentsUnfold(crc, off, data, begin);
    AgreesSplit(file, x, first, if n == |data| then []
      else Fragments(crc, HeaderOffset(off) + HEADER_SIZE + n, data[n..], false));
    resyncing', more := SkipsFragment(crc, file, x, off, data, begin, initialOffset, resyncing, drops);
    if n < |data| {
      FullBlock(off, data);
      AfterTrailer(x, off);
      Shift(x + |Trailer(off)|, HeaderOffset(off), HEADER_SIZE + n);
      var r, m := SkipsFragments(crc, file, next, BLOCK_SIZE, data[n..], false, initialOffset, resyncing',
        drops + more);
      assert drops + more + m == drops + (more + m);
      resyncing', more := r, more + m;
    }
  }

  /** Reading all records after earlier ones were passed over. */
  lemma ReadAllAfterSkip(crc: CrcStep, file: bytes, x: nat, y: nat, initialOffset: nat, resyncing: bool,
      resyncing': bool, drops: seq<nat>)
    requires RecordFrom(crc, file, x, initialOffset, resyncing, NoPartial, [])
             == RecordFrom(crc, file, y, initialOffset, resyncing', NoPartial, drops)
    ensures ReadAll(crc, file, x, initialOffset, resyncing).0 == ReadAll(crc, file, y, initialOffset, resyncing').0
    ensures ReadAll(crc, file, x, initialOffset, resyncing).1 == drops
            + ReadAll(crc, file, y, initialOffset, resyncing').1
  {
    hide RecordFrom, ReadAll;
    var none: seq<nat> := [];
    assert drops + none == drops;
    EarlierDrops(crc, file, y, initialOffset, resyncing', NoPartial, drops, none);
    ReadAllUnfolds(crc, file, x, initialOffset, resyncing);
    ReadAllUnfolds(crc, file, y, initialOffset, resyncing');
    var r := RecordFrom(crc, file, y, initialOffset, resyncing', NoPartial, none);
    if r.record != None {
      var rest := ReadAll(crc, file, r.next, initialOffset, r.resyncing);
      assert drops + r.drops + rest.1 == drops + (r.drops + rest.1);
    }
  }

  // ----- Starting at a record ----------------------------------------------------------

  /** The whole rest of the file, from position `x` on. */
  ghost predicate Ends(crc: CrcStep, file: bytes, x: nat, off: nat, records: seq<bytes>)
  {
    && off <= BLOCK_SIZE && InBlock(x, off)
    && Agrees(file, x, Records(crc, off, records)) && |file| == x + |Records(crc, off, records)|
  }

  lemma EndsUnfold(crc: CrcStep, file: bytes, x: nat, off: nat, records: seq<bytes>)
    requires Ends(crc, file, x, off, records) && records != []
    ensures off <= BLOCK_SIZE && InBlock(x, off)
    ensures var frags := Fragments(crc, off, records[0], true);
            && Agrees(file, x, frags) && x + |frags| <= |file|
            && Ends(crc, file, x + |frags|, EndOffset(off, records[0]), records[1..])
  {
    hide Fragments, EndOffset, InBlock, Agrees, Records;
    RecordsUnfold(crc, off, records);
    AgreesSplit(file, x, Fragments(crc, off, records[0], true), Records(crc, EndOffset(off, records[0]), records[1..]));
    FragmentsEnd(crc, x, off, records[0], true);
  }

  lemma AllWhollyIn(crc: CrcStep, file: bytes, x: nat, off: nat, records: seq<bytes>, got: seq<bytes>)
    requires Ends(crc, file, x, off, records) && WhollyIn(crc, |file|, x, off, records, got)
    ensures got == records
  {
    hide Records, InBlock, Agrees;
    if |got| < |records| {
      RecordsMonotone(crc, off, records, |got| + 1);
      assert false;
    }
  }

  lemma {:induction false} FromRecord(crc: CrcStep, file: bytes, x: nat, off: nat, records: seq<bytes>,
      initialOffset: nat, resyncing: bool)
    requires Ends(crc, file, x, off, records)
    ensures ReadAll(crc, file, x, initialOffset, resyncing).0 == RecordsFrom(crc, x, off, records, initialOffset)
    ensures ReadAll(crc, file, x, initialOffset, resyncing).1 == []
            <==> !AnyStraddles(crc, x, off, records, initialOffset)
    decreases records
  {
    hide RecordFrom, ReadAll, Fragments, EndOffset, InBlock, Agrees, Records, Straddles, WhollyIn;
    if records == [] {
      assert |file| == x by { RecordsUnfold(crc, off, records); }
      NothingLeft(crc, file, initialOffset, resyncing);
    } else if x + |Trailer(off)| >= initialOffset {
      ReadsRecords(crc, file, x, off, records, initialOffset, resyncing);
      AllWhollyIn(crc, file, x, off, records, ReadAll(crc, file, x, initialOffset, resyncing).0);
    } else {
      EndsUnfold(crc, file, x, off, records);
      var end := x + |Fragments(crc, off, records[0], true)|;
      var resyncing', drops := SkipsFragments(crc, file, x, off, records[0], true, initialOffset, resyncing, []);
      assert [] + drops == drops;
      ReadAllAfterSkip(crc, file, x, end, initialOffset, resyncing, resyncing', drops);
      FromRecord(crc, file, end, EndOffset(off, records[0]), records[1..], initialOffset, resyncing');
    }
  }

  // ----- Starting at a block -----------------------------------------------------------

  lemma OverTrailer(crc: CrcStep, file: bytes, x: nat, off: nat, initialOffset: nat, resyncing: bool)
    requires off <= BLOCK_SIZE && InBlock(x, off) && x + |Trailer(off)| <= |file|
    ensures ReadAll(crc, file, x, initialOffset, resyncing)
            == ReadAll(crc, file, x + |Trailer(off)|, initialOffset, resyncing)
  {
    hide RecordFrom, ReadAll;
    var h := x + |Trailer(off)|;
    if h != x {
      EndOfBlock(x, off);
      assert PhysicalAt(crc, file, x, initialOffset) == PhysicalAt(crc, file, h, initialOffset);
      var none: seq<nat> := [];
      RecordUnfolds(crc, file, x, initialOffset, resyncing, NoPartial, none);
      RecordUnfolds(crc, file, h, initialOffset, resyncing, NoPartial, none);
      ReadAllUnfolds(crc, file, x, initialOffset, resyncing);
      ReadAllUnfolds(crc, file, h, initialOffset, resyncing);
    }
  }

  /** A block boundary after a header is at or after the end of that physical record. */
  lemma BoundaryAfter(x: nat, off: nat, data: bytes, b: nat)
    requires off <= BLOCK_SIZE && InBlock(x, off) && b % BLOCK_SIZE == 0 && x + |Trailer(off)| < b
    ensures x + |Trailer(off)| + HEADER_SIZE + Fragment(off, data) <= b
    ensures InBlock(x + |Trailer(off)| + HEADER_SIZE + Fragment(off, data),
            HeaderOffset(off) + HEADER_SIZE + Fragment(off, data))
  {
    AfterTrailer(x, off);
    var h := x + |Trailer(off)|;
    assert (h - HeaderOffset(off)) % BLOCK_SIZE == 0;
    assert b >= h - HeaderOffset(off) + BLOCK_SIZE;
    Shift(h, HeaderOffset(off), HEADER_SIZE + Fragment(off, data));
  }

  /** Starting at a block boundary inside a record. */
  lemma {:induction false} FromInside(crc: CrcStep, file: bytes, x: nat, off: nat, data: bytes, begin: bool, b: nat,
      initialOffset: nat)
    returns (resyncing: bool, drops: seq<nat>)
    requires off <= BLOCK_SIZE && InBlock(x, off) && b % BLOCK_SIZE == 0
    requires x + |Trailer(off)| < b < x + |Fragments(crc, off, data, begin)| <= |file|
    requires Agrees(file, x, Fragments(crc, off, data, begin))
    ensures RecordFrom(crc, file, b, initialOffset, true, NoPartial, [])
            == RecordFrom(crc, file, x + |Fragments(crc, off, data, begin)|, initialOffset, resyncing, NoPartial, drops)
    ensures drops == [] <==> !(b < initialOffset && Straddles(x, off, data, initialOffset))
    decreases |data|, HeaderOffset(off)
  {
    hide RecordFrom, Agrees, Physical, InBlock, Fragments, Trailer;
    var n := Fragment(off, data);
    var next := x + |Trailer(off)| + HEADER_SIZE + n;
    var first := Trailer(off) + Physical(crc, RecordType(begin, n == |data|), data[..n]);
    FragmentsUnfold(crc, off, data, begin);
    AgreesSplit(file, x, first, if n == |data| then []
      else Fragments(crc, HeaderOffset(off) + HEADER_SIZE + n, data[n..], false));
    BoundaryAfter(x, off, data, b);
    FullBlock(off, data);
    if b == next {
      resyncing, drops := SkipsFragments(crc, file, b, BLOCK_SIZE, data[n..], false, initialOffset, true, []);
      assert [] + drops == drops;
    } else {
      resyncing, drops := FromInside(crc, file, next, BLOCK_SIZE, data[n..], false, b, initialOffset);
    }
  }

  lemma {:induction false} WhollyBefore(crc: CrcStep, x: nat, off: nat, data: bytes, begin: bool, initialOffset: nat)
    requires off <= BLOCK_SIZE && x + |Fragments(crc, off, data, begin)| <= initialOffset
    ensures !Straddles(x, off, data, initialOffset)
    decreases |data|, HeaderOffset(off)
  {
    hide Physical, Trailer;
    var n := Fragment(off, data);
    FragmentsUnfold(crc, off, data, begin);
    if n < |data| {
      FullBlock(off, data);
      WhollyBefore(crc, x + |Trailer(off)| + HEADER_SIZE + n, BLOCK_SIZE, data[n..], false, initialOffset);
    }
  }

  lemma {:induction false} NoneStraddle(crc: CrcStep, x: nat, off: nat, records: seq<bytes>, initialOffset: nat)
    requires off <= BLOCK_SIZE && x + |Trailer(off)| >= initialOffset
    ensures !AnyStraddles(crc, x, off, records, initialOffset)
            && RecordsFrom(crc, x, off, records, initialOffset) == records
  {
  }

  lemma {:induction false} FromBlock(crc: CrcStep, file: bytes, x: nat, off: nat, records: seq<bytes>, b: nat,
      initialOffset: nat)
    requires Ends(crc, file, x, off, records) && b % BLOCK_SIZE == 0 && x <= b <= initialOffset + 5
    ensures ReadAll(crc, file, b, initialOffset, true).0 == RecordsFrom(crc, x, off, records, initialOffset)
    ensures ReadAll(crc, file, b, initialOffset, true).1 == []
            <==> !(b < initialOffset && AnyStraddles(crc, x, off, records, initialOffset))
    decreases records
  {
    hide RecordFrom, ReadAll, Fragments, EndOffset, InBlock, Agrees, Records, Straddles, PhysicalAt;
    if records == [] {
      assert |file| == x by { RecordsUnfold(crc, off, records); }
      PastTheEnd(crc, file, b, initialOffset, true);
    } else {
      EndsUnfold(crc, file, x, off, records);
      var h, end := x + |Trailer(off)|, x + |Fragments(crc, off, records[0], true)|;
      var off', later := EndOffset(off, records[0]), records[1..];
      if b <= h {
        BoundaryInTrailer(x, off, b);
        OverTrailer(crc, file, x, off, initialOffset, true);
        FromRecord(crc, file, x, off, records, initialOffset, true);
        if b >= initialOffset {
          NoneStraddle(crc, x, off, records, initialOffset);
        }
      } else {
        BoundaryAfter(x, off, records[0], b);
        if b < end {
          var resyncing, drops := FromInside(crc, file, x, off, records[0], true, b, initialOffset);
          ReadAllAfterSkip(crc, file, b, end, initialOffset, true, resyncing, drops);
          FromRecord(crc, file, end, off', later, initialOffset, resyncing);
          if b >= initialOffset {
            NoneStraddle(crc, end, off', later, initialOffset);
          }
        } else {
          if b < initialOffset {
            WhollyBefore(crc, x, off, records[0], true, initialOffset);
          }
          FromBlock(crc, file, end, off', later, b, initialOffset);
        }
      }
    }
  }

  lemma PastTheEnd(crc: CrcStep, file: bytes, x: nat, initialOffset: nat, resyncing: bool)
    requires x >= |file|
    ensures ReadAll(crc, file, x, initialOffset, resyncing) == ([], [])
  {
    hide RecordFrom;
    var none: seq<nat> := [];
    assert none + none == none && PhysicalAt(crc, file, x, initialOffset) == PhysEof;
    RecordUnfolds(crc, file, x, initialOffset, resyncing, NoPartial, none);
  }

  lemma BoundaryInTrailer(x: nat, off: nat, b: nat)
    requires off <= BLOCK_SIZE && InBlock(x, off) && b % BLOCK_SIZE == 0 && x <= b <= x + |Trailer(off)|
    ensures b == x || b == x + |Trailer(off)|
  {
    if b != x && |Trailer(off)| > 0 {
      assert (x - off) % BLOCK_SIZE == 0 && b < x - off + 2 * BLOCK_SIZE;
    }
  }

  /** Reading a whole log from an initial offset returns exactly the records whose first header is at
      or after it. It reports a drop exactly when a record straddles the offset and the reader has to
      read one of the fragments before it: passing over that fragment ends the resynchronization, and
      the next one counts as the middle of a record without a beginning. */
  lemma InitialOffsetReads(crc: CrcStep, records: seq<bytes>, initialOffset: nat)
    requires initialOffset > 0
    ensures var (got, drops) :=
            ReadAll(crc, Records(crc, 0, records), InitialBlock(initialOffset), initialOffset, true);
            && got == RecordsFrom(crc, 0, 0, records, initialOffset)
            && (drops == []
              <==> !(InitialBlock(initialOffset) < initialOffset && AnyStraddles(crc, 0, 0, records, initialOffset)))
  {
    hide ReadAll, Records, AnyStraddles, RecordsFrom;
    var file := Records(crc, 0, records);
    assert file[0..0 + |file|] == file;
    assert Ends(crc, file, 0, 0, records);
    FromBlock(crc, file, 0, 0, records, InitialBlock(initialOffset), initialOffset);
  }

  /** One record of more than one fragment, read from offset 1: nothing is damaged, yet a drop is reported. */
  lemma SpuriousReport(crc: CrcStep, data: bytes)
    requires |data| > BLOCK_SIZE - HEADER_SIZE
    ensures ReadAll(crc, Records(crc, 0, [data]), InitialBlock(1), 1, true).0 == []
    ensures ReadAll(crc, Records(crc, 0, [data]), InitialBlock(1), 1, true).1 != []
  {
    hide ReadAll, Records, Fragments;
    InitialOffsetReads(crc, [data], 1);
    assert Straddles(0, 0, data, 1);
  }
}
