/** The log file format (db/log_format.h): what AddRecord appends and what one physical read
    returns, as functions of the file's bytes. */
module LogFormat {
  import opened Coding
  import opened Options

  const BLOCK_SIZE: nat := 32768
  const HEADER_SIZE: nat := 7
  const FULL: byte := 1
  const FIRST: byte := 2
  const MIDDLE: byte := 3
  const LAST: byte := 4

  // ----- What the writer appends -------------------------------------------------------

  /** Zero fill when fewer than seven bytes of the block are left. */
  function Trailer(off: nat): (r: bytes)
    requires off <= BLOCK_SIZE
  {
    if BLOCK_SIZE - off < HEADER_SIZE then Zeros(BLOCK_SIZE - off) else []
  }

  /** Where the next header goes. */
  function HeaderOffset(off: nat): (r: nat)
    requires off <= BLOCK_SIZE
    ensures r + HEADER_SIZE <= BLOCK_SIZE
  {
    if BLOCK_SIZE - off < HEADER_SIZE then 0 else off
  }

  function Fragment(off: nat, data: bytes): (r: nat)
    requires off <= BLOCK_SIZE
    ensures r <= |data| && HeaderOffset(off) + HEADER_SIZE + r <= BLOCK_SIZE
  {
    var avail := BLOCK_SIZE - HeaderOffset(off) - HEADER_SIZE;
    if |data| < avail then |data| else avail
  }

  function RecordType(begin: bool, end: bool): byte
  {
    if begin && end then FULL else if begin then FIRST else if end then LAST else MIDDLE
  }

  function Header(crc: CrcStep, t: byte, data: bytes): (r: bytes)
    requires |data| < 0x1_0000
    ensures |r| == HEADER_SIZE
  {
    EncodeFixed(Mask(Crc(crc, [t] + data)), 4) + [|data| % 256, |data| / 256, t]
  }

  function Physical(crc: CrcStep, t: byte, data: bytes): (r: bytes)
    requires |data| < 0x1_0000
    ensures |r| == HEADER_SIZE + |data|
  {
    Header(crc, t, data) + data
  }

  /** The bytes of one record from block offset `off` on; `begin` is false in its continuation. */
  function Fragments(crc: CrcStep, off: nat, data: bytes, begin: bool): (r: bytes)
    requires off <= BLOCK_SIZE
    ensures |r| >= |Trailer(off)| + HEADER_SIZE
    decreases |data|, HeaderOffset(off)
  {
    var n := Fragment(off, data);
    Trailer(off) + Physical(crc, RecordType(begin, n == |data|), data[..n])
    + (if n == |data| then [] else Fragments(crc, HeaderOffset(off) + HEADER_SIZE + n, data[n..], false))
  }

  lemma FragmentsUnfold(crc: CrcStep, off: nat, data: bytes, begin: bool)
    requires off <= BLOCK_SIZE
    ensures var n := Fragment(off, data);
            Fragments(crc, off, data, begin)
            == Trailer(off) + Physical(crc, RecordType(begin, n == |data|), data[..n])
               + (if n == |data| then [] else Fragments(crc, HeaderOffset(off) + HEADER_SIZE + n, data[n..], false))
  {
  }

  /** A record from the start of a block that fits into it: the masked checksum of type and data in four bytes, the
      length in two, the type 1, the data. */
  lemma ShortLayout(crc: CrcStep, data: bytes)
    requires HEADER_SIZE + |data| <= BLOCK_SIZE
    ensures Fragments(crc, 0, data, true)
            == EncodeFixed(Mask(Crc(crc, [1] + data)), 4) + [|data| % 256, |data| / 256, 1] + data
  {
    hide Crc, Mask, EncodeFixed, Fragments;
    WholeFragment(crc, data);
  }

  lemma WholeFragment(crc: CrcStep, data: bytes)
    requires HEADER_SIZE + |data| <= BLOCK_SIZE
    ensures Fragments(crc, 0, data, true) == Physical(crc, FULL, data)
  {
    hide Physical, Fragments;
    FragmentsUnfold(crc, 0, data, true);
    var whole := Physical(crc, FULL, data);
    assert Fragment(0, data) == |data| && data[..|data|] == data && Trailer(0) == [];
    assert [] + whole + [] == whole;
  }

  /** The number of blocks that a record from the start of a block takes. */
  function Blocks(n: nat): nat
  {
    if n <= 32768 - 7 then 1 else 1 + Blocks(n - (32768 - 7))
  }

  /** A longer one fills its blocks: its first fragment has type 2, the last one 4, those in between 3. */
  lemma {:induction false} LongLayout(crc: CrcStep, data: bytes, begin: bool, k: nat)
    requires |data| > 32768 - 7 || !begin
    requires k < Blocks(|data|)
    ensures var b := Fragments(crc, 0, data, begin);
            && 32768 * k + 6 < |b|
            && b[32768 * k + 6] == (if k == 0 && begin then 2 else if k == Blocks(|data|) - 1 then 4 else 3)
    decreases k
  {
    hide Fragments, Physical;
    FragmentsUnfold(crc, 0, data, begin);
    var n := Fragment(0, data);
    TypeByte(crc, RecordType(begin, n == |data|), data[..n]);
    if n < |data| {
      var rest := Fragments(crc, BLOCK_SIZE, data[n..], false);
      NextBlockSame(crc, data[n..]);
      if k > 0 {
        LongLayout(crc, data[n..], false, k - 1);
      }
    }
  }

  /** No header is started in the last six bytes of a block: they are filled with zeros, and the record begins the
      next block. */
  lemma BlockEndsInZeros(crc: CrcStep, off: nat, data: bytes, begin: bool)
    requires 32768 - 7 < off <= 32768
    ensures Fragments(crc, off, data, begin) == Trailer(off) + Fragments(crc, 0, data, begin)
    ensures |Trailer(off)| == 32768 - off && forall i :: 0 <= i < 32768 - off ==> Trailer(off)[i] == 0
  {
    hide Physical, Fragments;
    FragmentsUnfold(crc, off, data, begin);
    FragmentsUnfold(crc, 0, data, begin);
    assert Trailer(0) == [];
    var n := Fragment(off, data);
    Regroup(Trailer(off), Physical(crc, RecordType(begin, n == |data|), data[..n]),
      if n == |data| then [] else Fragments(crc, HEADER_SIZE + n, data[n..], false));
  }

  lemma Regroup(a: bytes, b: bytes, c: bytes)
    ensures a + b + c == a + ([] + b + c)
  {
  }

  /** With seven bytes left there is room for a header, and it is put there with none of the data. */
  lemma HeaderAlone(crc: CrcStep, data: bytes, begin: bool)
    requires data != []
    ensures Fragments(crc, 32768 - 7, data, begin)
            == Physical(crc, if begin then 2 else 3, []) + Fragments(crc, 0, data, false)
  {
    hide Physical;
    FragmentsUnfold(crc, 32768 - 7, data, begin);
    NextBlockSame(crc, data);
    assert Fragment(32768 - 7, data) == 0 && data[..0] == [] && data[0..] == data && Trailer(32768 - 7) == [];
    var head := Physical(crc, if begin then 2 else 3, []);
    assert [] + head == head;
  }

  lemma TypeByte(crc: CrcStep, t: byte, data: bytes)
    requires |data| < 0x1_0000
    ensures Physical(crc, t, data)[6] == t
  {
    hide Crc, Mask, EncodeFixed;
  }

  /** At the very end of a block the next fragment goes to the next one. */
  lemma NextBlockSame(crc: CrcStep, data: bytes)
    ensures Fragments(crc, BLOCK_SIZE, data, false) == Fragments(crc, 0, data, false)
  {
    hide Physical;
    FragmentsUnfold(crc, BLOCK_SIZE, data, false);
    FragmentsUnfold(crc, 0, data, false);
    assert Trailer(BLOCK_SIZE) == [] && Trailer(0) == [];
  }

  function EndOffset(off: nat, data: bytes): (r: nat)
    requires off <= BLOCK_SIZE
    ensures HEADER_SIZE <= r <= BLOCK_SIZE
    decreases |data|, HeaderOffset(off)
  {
    var n := Fragment(off, data);
    var next := HeaderOffset(off) + HEADER_SIZE + n;
    if n == |data| then next else EndOffset(next, data[n..])
  }

  function Records(crc: CrcStep, off: nat, records: seq<bytes>): (r: bytes)
    requires off <= BLOCK_SIZE
    decreases records
  {
    if records == [] then []
    else Fragments(crc, off, records[0], true) + Records(crc, EndOffset(off, records[0]), records[1..])
  }

  // ----- What one physical read returns ------------------------------------------------

  /** PhysBad carries the bytes to report, or none when the drop is silent. */
  datatype PhysicalRecord =
    | PhysEof
    | PhysBad(report: Option<nat>, next: nat)
    | PhysOk(t: byte, data: bytes, next: nat)

  function BlockEnd(x: nat): (r: nat)
    ensures x < r <= x + BLOCK_SIZE && r % BLOCK_SIZE == 0
  {
    (x / BLOCK_SIZE + 1) * BLOCK_SIZE
  }

  function Min(a: nat, b: nat): nat
  {
    if a < b then a else b
  }

  /** The physical record a reader positioned at `x` gets, looking only at whole blocks. */
  function PhysicalAt(crc: CrcStep, file: bytes, x: nat, initialOffset: nat): (r: PhysicalRecord)
    ensures r.PhysBad? || r.PhysOk? ==> x < r.next <= |file|
    ensures r.PhysOk? ==> r.next >= x + HEADER_SIZE + |r.data|
    decreases |file| - x
  {
    if x >= |file| then PhysEof else
    var end := Min(BlockEnd(x), |file|);
    if end - x < HEADER_SIZE then
      if |file| < BlockEnd(x) then PhysEof else PhysicalAt(crc, file, end, initialOffset)
    else
      ParseHeader(crc, file[x..end], x, |file| < BlockEnd(x), initialOffset)
  }

  function StoredLength(header: bytes): nat
    requires |header| >= HEADER_SIZE
  {
    var lo: nat, hi: nat := header[4], header[5];
    lo + 256 * hi
  }

  /** Header checks on a buffer that starts at file position `x` and holds at least a header. */
  function ParseHeader(crc: CrcStep, buffer: bytes, x: nat, eof: bool, initialOffset: nat): (r: PhysicalRecord)
    requires |buffer| >= HEADER_SIZE
    ensures r.PhysBad? || r.PhysOk? ==> x < r.next <= x + |buffer|
    ensures r.PhysOk? ==> r.next == x + HEADER_SIZE + |r.data|
  {
    var length := StoredLength(buffer);
    var t := buffer[6];
    if HEADER_SIZE + length > |buffer| then
      if eof then PhysEof else PhysBad(Some(|buffer|), x + |buffer|)
    else if t == 0 && length == 0 then PhysBad(None, x + |buffer|)
    else if Crc(crc, buffer[6..HEADER_SIZE + length]) != Unmask(DecodeFixed(buffer[..4]) % 0x1_0000_0000) then
      PhysBad(Some(|buffer|), x + |buffer|)
    else if x < initialOffset then PhysBad(None, x + HEADER_SIZE + length)
    else PhysOk(t, buffer[HEADER_SIZE..HEADER_SIZE + length], x + HEADER_SIZE + length)
  }

  // ----- What one logical read returns -------------------------------------------------

  // ReadPhysicalRecord returns the record type, or one of these two special values. A stored
  // type byte that happens to equal one of them is taken for it.
  const EOF_TYPE: nat := 5
  const BAD_TYPE: nat := 6

  function TypeOf(p: PhysicalRecord): nat
  {
    match p
    case PhysEof => EOF_TYPE
    case PhysBad(_, _) => BAD_TYPE
    case PhysOk(t, _, _) => t
  }

  /** The sizes handed to the reporter: drops that begin before the initial offset are not. The
      comparison is on unsigned integers, so a drop larger than the position is reported. */
  function Drop(pos: nat, size: nat, initialOffset: nat): seq<nat>
  {
    if pos < size || pos - size >= initialOffset then [size] else []
  }

  function PhysicalDrops(p: PhysicalRecord, initialOffset: nat): (r: seq<nat>)
    ensures !p.PhysBad? ==> r == []
  {
    match p
    case PhysBad(Some(size), next) => Drop(next, size, initialOffset)
    case _ => []
  }

  /** `record` is None when ReadRecord returns false; `offset` and `next` describe a record. */
  datatype ReadResult = ReadResult(record: Option<bytes>, offset: nat, next: nat, resyncing: bool, drops: seq<nat>)

  /** The state of the loop in ReadRecord: a partial record, if any, and where it began. */
  datatype Partial = NoPartial | Partial(offset: nat, scratch: bytes)

  function ScratchSize(p: Partial): nat
  {
    if p.Partial? then |p.scratch| else 0
  }

  /** A non-empty partial record cut off by the start of another is reported. */
  function Cut(pos: nat, partial: Partial, initialOffset: nat): seq<nat>
  {
    if ScratchSize(partial) > 0 then Drop(pos, ScratchSize(partial), initialOffset) else []
  }

  datatype Outcome = Done(result: ReadResult) | More(drops: seq<nat>, resyncing: bool, partial: Partial)

  /** What ReadRecord does with one physical record. */
  function OnPhysical(p: PhysicalRecord, initialOffset: nat, resyncing: bool, partial: Partial): (r: Outcome)
    requires p.PhysOk? ==> p.next >= HEADER_SIZE + |p.data|
  {
    var t := TypeOf(p);
    if t == EOF_TYPE then Done(ReadResult(None, 0, 0, false, []))
    else if p.PhysBad? then
      More(PhysicalDrops(p, initialOffset)
        + (if partial.Partial? then Drop(p.next, |partial.scratch|, initialOffset) else []),
           false, NoPartial)
    else if resyncing && t == MIDDLE then More([], true, partial)
    else if resyncing && t == LAST then More([], false, partial)
    else
      var start := p.next - HEADER_SIZE - |p.data|;
      if t == FULL then Done(ReadResult(Some(p.data), start, p.next, false, Cut(p.next, partial, initialOffset)))
      else if t == FIRST then More(Cut(p.next, partial, initialOffset), false, Partial(start, p.data))
      else if (t == MIDDLE || t == LAST)
        && partial.NoPartial? then More(Drop(p.next, |p.data|, initialOffset), false, partial)
      else if t == MIDDLE then More([], false, Partial(partial.offset, partial.scratch + p.data))
      else if t == LAST then Done(ReadResult(Some(partial.scratch + p.data), partial.offset, p.next, false, []))
      else if t == BAD_TYPE then
        More(if partial.Partial? then Drop(p.next, |partial.scratch|, initialOffset) else [], false, NoPartial)
      else More(Drop(p.next, |p.data| + ScratchSize(partial), initialOffset), false, NoPartial)
  }

  function Reported(r: ReadResult, drops: seq<nat>): ReadResult
  {
    r.(drops := drops + r.drops)
  }

  /** One call of ReadRecord from file position `x`; `drops` collects what was reported so far. */
  function RecordFrom(crc: CrcStep, file: bytes, x: nat, initialOffset: nat, resyncing: bool, partial: Partial,
      drops: seq<nat>): (r: ReadResult)
    ensures r.record.Some? ==> x < r.next <= |file|
    decreases |file| - x
  {
    var p := PhysicalAt(crc, file, x, initialOffset);
    var o := OnPhysical(p, initialOffset, resyncing, partial);
    if o.Done? then Reported(o.result, drops)
    else RecordFrom(crc, file, p.next, initialOffset, o.resyncing, o.partial, drops + o.drops)
  }

  lemma RecordUnfolds(crc: CrcStep, file: bytes, x: nat, initialOffset: nat, resyncing: bool, partial: Partial,
      drops: seq<nat>)
    ensures var p := PhysicalAt(crc, file, x, initialOffset);
            var o := OnPhysical(p, initialOffset, resyncing, partial);
            RecordFrom(crc, file, x, initialOffset, resyncing, partial, drops)
            == (if o.Done? then Reported(o.result, drops)
                else RecordFrom(crc, file, p.next, initialOffset, o.resyncing, o.partial, drops + o.drops))
  {
  }

  /** The start of the first block that can hold a record at or after `initialOffset`. */
  function InitialBlock(initialOffset: nat): (r: nat)
    ensures r % BLOCK_SIZE == 0
  {
    var inBlock := initialOffset % BLOCK_SIZE;
    if inBlock > BLOCK_SIZE - 6 then initialOffset - inBlock + BLOCK_SIZE else initialOffset - inBlock
  }
}
