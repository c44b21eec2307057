/** Reading a log that may be damaged anywhere: every record that comes back is made of fragments that stand in the
    file just as the writer emits them, and what does not check out is reported. */
module LogDamage {
  import opened Coding
  import opened LogFormat
  import opened Options

  lemma SubtractThenAdd(x: nat, d: nat)
    requires x < 0x1_0000_0000 && d < 0x1_0000_0000
    ensures ((x - d) % 0x1_0000_0000 + d) % 0x1_0000_0000 == x
  {
    if x >= d {
      assert (x - d) % 0x1_0000_0000 == x - d;
    } else {
      assert (x - d) % 0x1_0000_0000 == x - d + 0x1_0000_0000;
      assert (x + 0x1_0000_0000) % 0x1_0000_0000 == x;
    }
  }

  lemma RotateForth(rot: nat)
    requires rot < 0x1_0000_0000
    ensures var crc := rot / 0x2_0000 + (rot % 0x2_0000) * 0x8000;
            crc < 0x1_0000_0000 && crc / 0x8000 + (crc % 0x8000) * 0x2_0000 == rot
  {
    var hi, lo := rot / 0x2_0000, rot % 0x2_0000;
    assert (hi + lo * 0x8000) / 0x8000 == lo && (hi + lo * 0x8000) % 0x8000 == hi;
  }

  /** Masking is undone from the other side too, so a stored sum fits one checksum only. */
  lemma MaskUnmask(masked: uint32)
    ensures Mask(Unmask(masked)) == masked
  {
    SubtractThenAdd(masked, MASK_DELTA);
    RotateForth((masked - MASK_DELTA) % 0x1_0000_0000);
  }

  // ----- One physical record -----------------------------------------------------------

  /** The bytes the writer emits for a fragment stand at `x`. */
  ghost predicate Stands(crc: CrcStep, file: bytes, x: nat, t: byte, data: bytes)
  {
    && |data| < 0x1_0000 && x + HEADER_SIZE + |data| <= |file|
    && file[x..x + HEADER_SIZE + |data|] == Physical(crc, t, data)
  }

  lemma StoredLengthIs(header: bytes)
    requires |header| >= HEADER_SIZE
    ensures var n := StoredLength(header);
            n < 0x1_0000 && header[4] == n % 256 && header[5] == n / 256
  {
    var lo: nat, hi: nat := header[4], header[5];
    assert (lo + 256 * hi) % 256 == lo && (lo + 256 * hi) / 256 == hi;
  }

  /** The header checks pass exactly for the bytes the writer emits. */
  lemma HeaderChecks(crc: CrcStep, buffer: bytes)
    requires |buffer| >= HEADER_SIZE && HEADER_SIZE + StoredLength(buffer) <= |buffer|
    ensures var n := StoredLength(buffer);
            Crc(crc, buffer[6..HEADER_SIZE + n]) == Unmask(DecodeFixed(buffer[..4]) % 0x1_0000_0000)
            <==> buffer[..HEADER_SIZE + n] == Physical(crc, buffer[6], buffer[HEADER_SIZE..HEADER_SIZE + n])
  {
    hide Crc, Mask, Unmask, DecodeFixed, EncodeFixed, StoredLength, Pow256;
    var n := StoredLength(buffer);
    var data, sum := buffer[HEADER_SIZE..HEADER_SIZE + n], DecodeFixed(buffer[..4]);
    StoredLengthIs(buffer);
    Pow256Of4();
    FixedRoundTripBack(buffer[..4]);
    assert sum % 0x1_0000_0000 == sum;
    assert buffer[6..HEADER_SIZE + n] == [buffer[6]] + data;
    var c := Crc(crc, [buffer[6]] + data);
    MaskUnmask(sum);
    UnmaskMask(c);
    FixedRoundTrip(Mask(c), 4);
    var head := EncodeFixed(Mask(c), 4);
    var written := Physical(crc, buffer[6], data);
    assert written == head + [n % 256, n / 256, buffer[6]] + data;
    assert buffer[..HEADER_SIZE + n] == buffer[..4] + [buffer[4], buffer[5], buffer[6]] + data;
    assert written[..4] == head && buffer[..HEADER_SIZE + n][..4] == buffer[..4];
  }

  /** What the checks come to for a header whose payload is in the buffer. */
  lemma ParseIs(crc: CrcStep, buffer: bytes, n: nat, x: nat, eof: bool, initialOffset: nat)
    requires |buffer| >= HEADER_SIZE && n == StoredLength(buffer) && HEADER_SIZE + n <= |buffer|
    ensures n < 0x1_0000
    ensures var t, data := buffer[6], buffer[HEADER_SIZE..HEADER_SIZE + n];
            ParseHeader(crc, buffer, x, eof, initialOffset)
            == (if t == 0 && n == 0 then PhysBad(None, x + |buffer|)
                else if buffer[..HEADER_SIZE + n] != Physical(crc, t, data) then PhysBad(Some(|buffer|), x + |buffer|)
                else if x < initialOffset then PhysBad(None, x + HEADER_SIZE + n)
                else PhysOk(t, data, x + HEADER_SIZE + n))
  {
    hide Crc, Mask, Unmask, DecodeFixed, StoredLength, Physical;
    StoredLengthIs(buffer);
    HeaderChecks(crc, buffer);
  }

  /** Where the reader's block ends. */
  function Limit(file: bytes, x: nat): (r: nat)
    requires x < |file|
    ensures x < r <= |file|
  {
    Min(BlockEnd(x), |file|)
  }

  lemma Unfolded(crc: CrcStep, file: bytes, x: nat, initialOffset: nat)
    requires x < |file| && Limit(file, x) - x >= HEADER_SIZE
    ensures PhysicalAt(crc, file, x, initialOffset)
            == ParseHeader(crc, file[x..Limit(file, x)], x, |file| < BlockEnd(x), initialOffset)
  {
    hide ParseHeader, BlockEnd;
  }

  lemma SliceOfSlice(file: bytes, x: nat, end: nat, from: nat, to: nat)
    requires x <= end <= |file| && from <= to && x + to <= end
    ensures file[x..end][from..to] == file[x + from..x + to]
  {
    var a, b := file[x..end][from..to], file[x + from..x + to];
    assert |a| == |b| && forall k :: 0 <= k < |a| ==> a[k] == b[k];
  }

  lemma InBlock(file: bytes, x: nat, n: nat)
    requires x < |file| && x + n <= Limit(file, x)
    ensures file[x..Limit(file, x)][..n] == file[x..x + n]
  {
    hide Limit;
    SliceOfSlice(file, x, Limit(file, x), 0, n);
  }

  lemma WrittenParts(crc: CrcStep, t: byte, data: bytes)
    requires |data| < 0x1_0000
    ensures var b := Physical(crc, t, data);
            && |b| == HEADER_SIZE + |data| && StoredLength(b) == |data| && b[6] == t
            && b[HEADER_SIZE..HEADER_SIZE + |data|] == data
  {
    hide Crc, Mask, EncodeFixed;
    var lo, hi := |data| % 256, |data| / 256;
    assert lo + 256 * hi == |data|;
  }

  /** Where the block has room for a header, a physical record comes back exactly if these bytes stand there and
      fit the block; all zeros are taken for space never written. */
  lemma ReturnedIfWritten(crc: CrcStep, file: bytes, x: nat, initialOffset: nat, t: byte, data: bytes)
    requires x < |file| && Limit(file, x) - x >= HEADER_SIZE && x >= initialOffset
    ensures PhysicalAt(crc, file, x, initialOffset) == PhysOk(t, data, x + HEADER_SIZE + |data|)
            <==> Stands(crc, file, x, t, data) && x + HEADER_SIZE + |data| <= Limit(file, x)
                 && !(t == 0 && data == [])
  {
    hide StoredLength, BlockEnd, Physical, PhysicalAt, Limit, ParseHeader;
    var end := Limit(file, x);
    var buffer := file[x..end];
    Unfolded(crc, file, x, initialOffset);
    var n := StoredLength(buffer);
    if HEADER_SIZE + n <= |buffer| {
      ParseIs(crc, buffer, n, x, |file| < BlockEnd(x), initialOffset);
      InBlock(file, x, HEADER_SIZE + n);
    } else {
      TooLong(crc, buffer, x, |file| < BlockEnd(x), initialOffset);
    }
    if Stands(crc, file, x, t, data) && x + HEADER_SIZE + |data| <= end {
      StandsInBuffer(crc, file, x, end, t, data);
    }
  }

  lemma TooLong(crc: CrcStep, buffer: bytes, x: nat, eof: bool, initialOffset: nat)
    requires |buffer| >= HEADER_SIZE && HEADER_SIZE + StoredLength(buffer) > |buffer|
    ensures !ParseHeader(crc, buffer, x, eof, initialOffset).PhysOk?
  {
  }

  lemma StandsInBuffer(crc: CrcStep, file: bytes, x: nat, end: nat, t: byte, data: bytes)
    requires Stands(crc, file, x, t, data) && x + HEADER_SIZE + |data| <= end <= |file|
    ensures var buffer := file[x..end];
            && StoredLength(buffer) == |data| && buffer[6] == t && buffer[HEADER_SIZE..HEADER_SIZE + |data|] == data
            && buffer[..HEADER_SIZE + |data|] == Physical(crc, t, data)
  {
    hide StoredLength, Physical;
    var buffer, b := file[x..end], Physical(crc, t, data);
    WrittenParts(crc, t, data);
    SliceOfSlice(file, x, end, 0, HEADER_SIZE + |data|);
    PrefixLength(buffer, b);
    SliceOfSlice(buffer, 0, HEADER_SIZE + |data|, HEADER_SIZE, HEADER_SIZE + |data|);
  }

  lemma PrefixLength(buffer: bytes, b: bytes)
    requires |b| >= HEADER_SIZE && |buffer| >= |b| && buffer[..|b|] == b
    ensures StoredLength(buffer) == StoredLength(b) && buffer[6] == b[6]
  {
    assert buffer[4] == buffer[..|b|][4] && buffer[5] == buffer[..|b|][5] && buffer[6] == buffer[..|b|][6];
  }

  /** Wherever the reader starts, what it returns stands in the file just before where it goes on. */
  lemma {:induction false} ReturnedIsWritten(crc: CrcStep, file: bytes, x: nat, initialOffset: nat)
    requires PhysicalAt(crc, file, x, initialOffset).PhysOk?
    ensures var p := PhysicalAt(crc, file, x, initialOffset);
            && x <= p.next - HEADER_SIZE - |p.data| && Stands(crc, file, p.next - HEADER_SIZE - |p.data|, p.t, p.data)
    decreases |file| - x
  {
    hide Crc, Mask, Unmask, DecodeFixed, StoredLength, BlockEnd, Physical, ParseHeader;
    var end := Limit(file, x);
    if end - x < HEADER_SIZE {
      ReturnedIsWritten(crc, file, end, initialOffset);
    } else {
      ParsedIsWritten(crc, file[x..end], x, |file| < BlockEnd(x), initialOffset);
      var p := PhysicalAt(crc, file, x, initialOffset);
      InBlock(file, x, HEADER_SIZE + |p.data|);
    }
  }

  lemma ParsedIsWritten(crc: CrcStep, buffer: bytes, x: nat, eof: bool, initialOffset: nat)
    requires |buffer| >= HEADER_SIZE && ParseHeader(crc, buffer, x, eof, initialOffset).PhysOk?
    ensures var p := ParseHeader(crc, buffer, x, eof, initialOffset);
            && |p.data| < 0x1_0000 && p.next == x + HEADER_SIZE + |p.data| && HEADER_SIZE + |p.data| <= |buffer|
            && buffer[..HEADER_SIZE + |p.data|] == Physical(crc, p.t, p.data)
  {
    hide Crc, Mask, Unmask, DecodeFixed, StoredLength, Physical;
    ParseIs(crc, buffer, StoredLength(buffer), x, eof, initialOffset);
  }

  /** A payload or header that was changed, its length still within the block, costs the rest of the block: no
      record of it comes back, and its size is reported. */
  lemma DamageIsReported(crc: CrcStep, file: bytes, x: nat, initialOffset: nat, t: byte, data: bytes)
    requires x < |file| && Limit(file, x) - x >= HEADER_SIZE + |data| && |data| < 0x1_0000
    requires file[x + 4..x + HEADER_SIZE] == [|data| % 256, |data| / 256, t] && !(t == 0 && data == [])
    requires file[x + HEADER_SIZE..x + HEADER_SIZE + |data|] == data && !Stands(crc, file, x, t, data)
    ensures PhysicalAt(crc, file, x, initialOffset) == PhysBad(Some(Limit(file, x) - x), Limit(file, x))
  {
    hide StoredLength, BlockEnd, Physical, PhysicalAt, Limit, ParseHeader;
    var end := Limit(file, x);
    var buffer := file[x..end];
    Unfolded(crc, file, x, initialOffset);
    SliceOfSlice(file, x, end, 4, HEADER_SIZE);
    SliceOfSlice(file, x, end, HEADER_SIZE, HEADER_SIZE + |data|);
    LengthBytes(buffer, |data|, t);
    ParseIs(crc, buffer, |data|, x, |file| < BlockEnd(x), initialOffset);
    InBlock(file, x, HEADER_SIZE + |data|);
  }

  /** A fragment that would go beyond the end of its block is reported too, unless the file ends in that block: then
      the writer was cut off. */
  lemma OverlongIsReported(crc: CrcStep, file: bytes, x: nat, initialOffset: nat, n: nat, t: byte)
    requires x < |file| && Limit(file, x) - x >= HEADER_SIZE && n < 0x1_0000
    requires file[x + 4..x + HEADER_SIZE] == [n % 256, n / 256, t] && x + HEADER_SIZE + n > Limit(file, x)
    ensures PhysicalAt(crc, file, x, initialOffset)
            == if |file| < BlockEnd(x) then PhysEof else PhysBad(Some(Limit(file, x) - x), Limit(file, x))
  {
    hide StoredLength, BlockEnd, PhysicalAt, Limit;
    var end := Limit(file, x);
    Unfolded(crc, file, x, initialOffset);
    SliceOfSlice(file, x, end, 4, HEADER_SIZE);
    LengthBytes(file[x..end], n, t);
  }

  /** Space that was never written is passed over silently, to the end of the block. */
  lemma ZerosAreSkipped(crc: CrcStep, file: bytes, x: nat, initialOffset: nat)
    requires x < |file| && Limit(file, x) - x >= HEADER_SIZE && file[x + 4..x + HEADER_SIZE] == [0, 0, 0]
    ensures PhysicalAt(crc, file, x, initialOffset) == PhysBad(None, Limit(file, x))
  {
    hide StoredLength, BlockEnd, PhysicalAt, Limit;
    var end := Limit(file, x);
    Unfolded(crc, file, x, initialOffset);
    SliceOfSlice(file, x, end, 4, HEADER_SIZE);
    LengthBytes(file[x..end], 0, 0);
  }

  lemma LengthBytes(buffer: bytes, n: nat, t: byte)
    requires |buffer| >= HEADER_SIZE && n < 0x1_0000 && buffer[4..HEADER_SIZE] == [n % 256, n / 256, t]
    ensures StoredLength(buffer) == n && buffer[6] == t
  {
    assert buffer[4] == buffer[4..HEADER_SIZE][0] && buffer[5] == buffer[4..HEADER_SIZE][1]
        && buffer[6] == buffer[4..HEADER_SIZE][2];
    assert n % 256 + 256 * (n / 256) == n;
  }

  /** The reader goes on with the next block, and has no record from this one. */
  lemma DamageCostsTheBlock(crc: CrcStep, file: bytes, x: nat, t: byte, data: bytes, drops: seq<nat>)
    requires x < |file| && Limit(file, x) - x >= HEADER_SIZE + |data| && |data| < 0x1_0000
    requires file[x + 4..x + HEADER_SIZE] == [|data| % 256, |data| / 256, t] && !(t == 0 && data == [])
    requires file[x + HEADER_SIZE..x + HEADER_SIZE + |data|] == data && !Stands(crc, file, x, t, data)
    ensures RecordFrom(crc, file, x, 0, false, NoPartial, drops)
            == RecordFrom(crc, file, Limit(file, x), 0, false, NoPartial, drops + [Limit(file, x) - x])
  {
    hide PhysicalAt, RecordFrom, Stands, Limit;
    DamageIsReported(crc, file, x, 0, t, data);
    RecordUnfolds(crc, file, x, 0, false, NoPartial, drops);
    var size := Limit(file, x) - x;
    assert Drop(Limit(file, x), size, 0) + [] == [size];
  }

  // ----- Records -----------------------------------------------------------------------

  /** A fragment in the file. */
  datatype Piece = Piece(pos: nat, t: byte, data: bytes)

  function End(p: Piece): nat
  {
    p.pos + HEADER_SIZE + |p.data|
  }

  /** The first fragments of a record: one marked as the first, then any number in the middle, each the next one
      the reader meets after the one before. */
  ghost predicate Begun(crc: CrcStep, file: bytes, ps: seq<Piece>, initialOffset: nat)
  {
    && ps != [] && ps[0].t == FIRST && (forall i :: 0 < i < |ps| ==> ps[i].t == MIDDLE)
    && (forall i :: 0 <= i < |ps| ==> Stands(crc, file, ps[i].pos, ps[i].t, ps[i].data))
    && forall i :: 0 < i < |ps| ==> Linked(crc, file, ps, i, initialOffset)
  }

  ghost predicate Linked(crc: CrcStep, file: bytes, ps: seq<Piece>, i: nat, initialOffset: nat)
    requires 0 < i < |ps|
  {
    FollowsOn(crc, file, ps[i - 1], ps[i], initialOffset)
  }

  ghost predicate FollowsOn(crc: CrcStep, file: bytes, p: Piece, q: Piece, initialOffset: nat)
  {
    PhysicalAt(crc, file, End(p), initialOffset) == PhysOk(q.t, q.data, End(q))
  }

  /** All fragments of a record. */
  ghost predicate Complete(crc: CrcStep, file: bytes, ps: seq<Piece>, initialOffset: nat)
  {
    if |ps| == 1 then ps[0].t == FULL && Stands(crc, file, ps[0].pos, FULL, ps[0].data)
    else
      && |ps| > 1
      && var last := ps[|ps| - 1];
         && Begun(crc, file, ps[..|ps| - 1], initialOffset) && last.t == LAST
         && Stands(crc, file, last.pos, LAST, last.data)
         && FollowsOn(crc, file, ps[|ps| - 2], last, initialOffset)
  }

  function Payload(ps: seq<Piece>): bytes
  {
    if ps == [] then [] else Payload(ps[..|ps| - 1]) + ps[|ps| - 1].data
  }

  lemma PayloadMore(ps: seq<Piece>, p: Piece)
    ensures Payload(ps + [p]) == Payload(ps) + p.data
  {
    assert (ps + [p])[..|ps|] == ps;
  }

  ghost predicate Tracks(crc: CrcStep, file: bytes, x: nat, initialOffset: nat, resyncing: bool, partial: Partial,
      ps: seq<Piece>)
  {
    match partial
    case NoPartial => ps == []
    case Partial(offset, scratch) =>
      && ps != [] && Begun(crc, file, ps, initialOffset) && Payload(ps) == scratch && ps[0].pos == offset
      && End(ps[|ps| - 1]) == x && !resyncing
  }

  /** Every record that comes back, from whatever file, is put together from fragments that stand in it as the
      writer emits them, one after the other. */
  lemma {:induction false} RecordIsWritten(crc: CrcStep, file: bytes, x: nat, initialOffset: nat, resyncing: bool,
      partial: Partial, drops: seq<nat>, begun: seq<Piece>) returns (ps: seq<Piece>)
    requires RecordFrom(crc, file, x, initialOffset, resyncing, partial, drops).record.Some?
    requires Tracks(crc, file, x, initialOffset, resyncing, partial, begun)
    ensures var r := RecordFrom(crc, file, x, initialOffset, resyncing, partial, drops);
            && ps != [] && Complete(crc, file, ps, initialOffset) && Payload(ps) == r.record.value
            && ps[0].pos == r.offset && End(ps[|ps| - 1]) == r.next
    decreases |file| - x
  {
    hide PhysicalAt, RecordFrom, Physical, Drop, Cut, PhysicalDrops;
    RecordUnfolds(crc, file, x, initialOffset, resyncing, partial, drops);
    var p := PhysicalAt(crc, file, x, initialOffset);
    var o := OnPhysical(p, initialOffset, resyncing, partial);
    var more := begun;
    if p.PhysOk? {
      ReturnedIsWritten(crc, file, x, initialOffset);
      more := NextPiece(crc, file, x, initialOffset, resyncing, partial, begun);
    }
    if o.Done? {
      ps := more;
    } else {
      ps := RecordIsWritten(crc, file, p.next, initialOffset, o.resyncing, o.partial, drops + o.drops,
        if o.partial.NoPartial? then [] else more);
    }
  }

  lemma FirstPiece(crc: CrcStep, file: bytes, q: Piece, initialOffset: nat)
    requires Stands(crc, file, q.pos, q.t, q.data)
    ensures q.t == FIRST ==> Begun(crc, file, [q], initialOffset)
    ensures q.t == FULL ==> Complete(crc, file, [q], initialOffset)
    ensures Payload([q]) == q.data
  {
    hide Stands;
    PayloadMore([], q);
    assert [] + [q] == [q] && [] + q.data == q.data;
  }

  lemma LaterPiece(crc: CrcStep, file: bytes, ps: seq<Piece>, q: Piece, initialOffset: nat)
    requires Begun(crc, file, ps, initialOffset) && Stands(crc, file, q.pos, q.t, q.data)
    requires FollowsOn(crc, file, ps[|ps| - 1], q, initialOffset)
    ensures q.t == MIDDLE ==> Begun(crc, file, ps + [q], initialOffset)
    ensures q.t == LAST ==> Complete(crc, file, ps + [q], initialOffset)
    ensures Payload(ps + [q]) == Payload(ps) + q.data && ps != []
  {
    hide Stands, FollowsOn, Linked, Payload;
    PayloadMore(ps, q);
    var all := ps + [q];
    assert all[..|ps|] == ps;
    forall i | 0 < i < |all|
      ensures Linked(crc, file, all, i, initialOffset)
    {
      LinkedMore(crc, file, ps, q, i, initialOffset);
    }
  }

  lemma LinkedMore(crc: CrcStep, file: bytes, ps: seq<Piece>, q: Piece, i: nat, initialOffset: nat)
    requires 0 < i <= |ps| && FollowsOn(crc, file, ps[|ps| - 1], q, initialOffset)
    requires i < |ps| ==> Linked(crc, file, ps, i, initialOffset)
    ensures Linked(crc, file, ps + [q], i, initialOffset)
  {
    hide FollowsOn;
  }

  /** One fragment more. */
  lemma NextPiece(crc: CrcStep, file: bytes, x: nat, initialOffset: nat, resyncing: bool, partial: Partial,
      begun: seq<Piece>) returns (more: seq<Piece>)
    requires PhysicalAt(crc, file, x, initialOffset).PhysOk?
    requires var p := PhysicalAt(crc, file, x, initialOffset);
             x + HEADER_SIZE + |p.data| <= p.next && Stands(crc, file, p.next - HEADER_SIZE - |p.data|, p.t, p.data)
    requires Tracks(crc, file, x, initialOffset, resyncing, partial, begun)
    ensures var p := PhysicalAt(crc, file, x, initialOffset);
            var o := OnPhysical(p, initialOffset, resyncing, partial);
            match o
            case Done(r) =>
              r.record.Some? ==>
                && more != [] && Complete(crc, file, more, initialOffset) && Payload(more) == r.record.value
                && more[0].pos == r.offset && End(more[|more| - 1]) == r.next
            case More(_, resyncing', partial') =>
              Tracks(crc, file, p.next, initialOffset, resyncing', partial', if partial'.NoPartial? then [] else more)
  {
    hide PhysicalAt, Physical, Stands, Drop, Cut, PhysicalDrops, Begun, Complete, Payload;
    var p := PhysicalAt(crc, file, x, initialOffset);
    var q := Piece(p.next - HEADER_SIZE - |p.data|, p.t, p.data);
    if partial.Partial? && (p.t == MIDDLE || p.t == LAST) {
      assert FollowsOn(crc, file, begun[|begun| - 1], q, initialOffset);
      LaterPiece(crc, file, begun, q, initialOffset);
      more := begun + [q];
    } else {
      FirstPiece(crc, file, q, initialOffset);
      more := [q];
    }
  }

  // ----- Nothing goes missing ----------------------------------------------------------

  function Sum(sizes: seq<nat>): nat
  {
    if sizes == [] then 0 else Sum(sizes[..|sizes| - 1]) + sizes[|sizes| - 1]
  }

  lemma {:induction false} SumOfBoth(a: seq<nat>, b: seq<nat>)
    ensures Sum(a + b) == Sum(a) + Sum(b)
    decreases |b|
  {
    if b == [] {
      assert a + b == a;
    } else {
      SumOfBoth(a, b[..|b| - 1]);
      assert (a + b)[..|a + b| - 1] == a + b[..|b| - 1];
    }
  }

  /** The bytes the reader meets on its way: the payloads that check out and the pieces it has to report. A
      stored type byte of 6 is taken for a piece that has been reported already. */
  function Met(crc: CrcStep, file: bytes, x: nat, upTo: nat): nat
    decreases |file| - x
  {
    if x >= upTo then 0
    else
      match PhysicalAt(crc, file, x, 0)
      case PhysEof => 0
      case PhysBad(report, next) =>
        (if report.Some? then report.value else 0) + Met(crc, file, next, upTo)
      case PhysOk(t, data, next) => (if t == BAD_TYPE then 0 else |data|) + Met(crc, file, next, upTo)
  }

  lemma OneDrop(pos: nat, size: nat)
    ensures Drop(pos, size, 0) == [size] && Sum([size]) == size && Sum([]) == 0
  {
    assert [size][..0] == [];
  }

  /** One physical record is kept or reported. */
  lemma StepAccounts(p: PhysicalRecord, partial: Partial)
    requires p.PhysOk? ==> p.next >= HEADER_SIZE + |p.data|
    ensures var size := match p
                        case PhysEof => 0
                        case PhysBad(report, _) => if report.Some? then report.value else 0
                        case PhysOk(t, data, _) => if t == BAD_TYPE then 0 else |data|;
            match OnPhysical(p, 0, false, partial)
            case Done(r) =>
              r.record.Some? ==>
                !p.PhysEof? && r.next == p.next && ScratchSize(partial) + size == |r.record.value| + Sum(r.drops)
            case More(drops, resyncing, after) =>
              !p.PhysEof? && !resyncing && ScratchSize(partial) + size == ScratchSize(after) + Sum(drops)
  {
    hide Drop;
    OneDrop(if p.PhysEof? then 0 else p.next, ScratchSize(partial));
    if p.PhysBad? {
      if p.report.Some? {
        OneDrop(p.next, p.report.value);
      }
      SumOfBoth(PhysicalDrops(p, 0), if partial.Partial? then Drop(p.next, |partial.scratch|, 0) else []);
    } else if p.PhysOk? {
      OneDrop(p.next, |p.data|);
      OneDrop(p.next, |p.data| + ScratchSize(partial));
    }
  }

  /** Reading a record from the start of a file, or from where the one before it ended, loses nothing silently:
      every byte met on the way is in the record or in a report. */
  lemma {:induction false} NothingGoesMissing(crc: CrcStep, file: bytes, x: nat, partial: Partial, drops: seq<nat>)
    requires RecordFrom(crc, file, x, 0, false, partial, drops).record.Some?
    ensures var r := RecordFrom(crc, file, x, 0, false, partial, drops);
            ScratchSize(partial) + Sum(drops) + Met(crc, file, x, r.next) == |r.record.value| + Sum(r.drops)
    decreases |file| - x
  {
    hide PhysicalAt, RecordFrom, OnPhysical, Sum;
    RecordUnfolds(crc, file, x, 0, false, partial, drops);
    var p := PhysicalAt(crc, file, x, 0);
    var o := OnPhysical(p, 0, false, partial);
    StepAccounts(p, partial);
    if o.Done? {
      SumOfBoth(drops, o.result.drops);
      assert Met(crc, file, p.next, p.next) == 0;
    } else {
      SumOfBoth(drops, o.drops);
      NothingGoesMissing(crc, file, p.next, o.partial, drops + o.drops);
    }
  }
}
