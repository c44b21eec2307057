/** The write batch (db/write_batch.cc): its byte string, built in place by Put, Delete and Append,
    and consumed by Iterate into a memtable. */
module WriteBatches {
  import opened Coding
  import opened Options

  const HEADER: nat := 12
  const TYPE_DELETION: byte := 0
  const TYPE_VALUE: byte := 1

  datatype Op = Put(key: bytes, value: bytes) | Delete(key: bytes)

  datatype Status = Ok | Corruption(message: string)

  /** A memtable entry: what MemTable::Add is given. */
  datatype MemEntry = MemEntry(key: bytes, sn: nat, kind: byte, value: bytes)

  // ----- The byte string ---------------------------------------------------------------

  /** Lengths fit the 32-bit varints they are stored in. */
  predicate Encodable(op: Op)
  {
    |op.key| < 0x1_0000_0000 && (op.Put? ==> |op.value| < 0x1_0000_0000)
  }

  predicate AllEncodable(ops: seq<Op>)
  {
    |ops| < 0x8000_0000 && forall i :: 0 <= i < |ops| ==> Encodable(ops[i])
  }

  function EncodeOp(op: Op): (r: bytes)
    ensures |r| > 0
  {
    match op
    case Put(key, value) => [TYPE_VALUE] + PutLengthPrefixed(key) + PutLengthPrefixed(value)
    case Delete(key) => [TYPE_DELETION] + PutLengthPrefixed(key)
  }

  function EncodeOps(ops: seq<Op>): bytes
  {
    if ops == [] then [] else EncodeOps(ops[..|ops| - 1]) + EncodeOp(ops[|ops| - 1])
  }

  function Rep(sn: nat, ops: seq<Op>): (r: bytes)
    ensures |r| >= HEADER
  {
    EncodeFixed(sn, 8) + EncodeFixed(|ops|, 4) + EncodeOps(ops)
  }

  function SequenceOf(rep: bytes): nat
    requires |rep| >= HEADER
  {
    DecodeFixed(rep[..8])
  }

  /** The stored count, read into a signed 32-bit integer. */
  function CountOf(rep: bytes): int
    requires |rep| >= HEADER
  {
    var c := DecodeFixed(rep[8..12]);
    if c < 0x8000_0000 then c else c - 0x1_0000_0000
  }

  // ----- Iterating ---------------------------------------------------------------------

  /** The first operation of `b` and its length, or the error Iterate returns. */
  datatype Parsed = Parsed(op: Op, length: nat) | Malformed(message: string)

  function ParseOp(b: bytes): (r: Parsed)
    requires b != []
    ensures r.Parsed? ==> 1 <= r.length <= |b|
  {
    if b[0] == TYPE_VALUE then
      match GetLengthPrefixed(b[1..])
      case None => Malformed("bad WriteBatch Put")
      case Some((key, n)) =>
        (match GetLengthPrefixed(b[1 + n..])
         case None => Malformed("bad WriteBatch Put")
         case Some((value, m)) => Parsed(Put(key, value), 1 + n + m))
    else if b[0] == TYPE_DELETION then
      match GetLengthPrefixed(b[1..])
      case None => Malformed("bad WriteBatch Delete")
      case Some((key, n)) => Parsed(Delete(key), 1 + n)
    else Malformed("unknown WriteBatch tag")
  }

  /** The operations handed to the handler before the end or the first error. */
  function ParseOps(b: bytes): (r: (seq<Op>, Status))
    decreases |b|
  {
    if b == [] then ([], Ok)
    else match ParseOp(b)
      case Malformed(message) => ([], Corruption(message))
      case Parsed(op, n) => var (ops, status) := ParseOps(b[n..]); ([op] + ops, status)
  }

  function IterateRep(rep: bytes): (seq<Op>, Status)
  {
    if |rep| < HEADER then ([], Corruption("malformed WriteBatch (too small)"))
    else
      var (ops, status) := ParseOps(rep[HEADER..]);
      (ops, if status == Ok && |ops| != CountOf(rep) then Corruption("WriteBatch has wrong count") else status)
  }

  /** The entries of consecutive operations, numbered from `sn`. */
  function Numbered(sn: nat, ops: seq<Op>): (r: seq<MemEntry>)
    ensures |r| == |ops|
  {
    seq(|ops|, i requires 0 <= i < |ops| =>
      match ops[i]
      case Put(key, value) => MemEntry(key, sn + i, TYPE_VALUE, value)
      case Delete(key) => MemEntry(key, sn + i, TYPE_DELETION, []))
  }

  lemma ParsesOp(op: Op, rest: bytes)
    requires Encodable(op)
    ensures ParseOp(EncodeOp(op) + rest) == Parsed(op, |EncodeOp(op)|)
  {
    hide PutLengthPrefixed, GetLengthPrefixed;
    var b := EncodeOp(op) + rest;
    match op
    case Put(key, value) =>
      LengthPrefixedRoundTrip(key, PutLengthPrefixed(value) + rest);
      LengthPrefixedRoundTrip(value, rest);
      assert b[1..] == PutLengthPrefixed(key) + (PutLengthPrefixed(value) + rest);
      assert b[1 + |PutLengthPrefixed(key)|..] == PutLengthPrefixed(value) + rest;
    case Delete(key) =>
      LengthPrefixedRoundTrip(key, rest);
      assert b[1..] == PutLengthPrefixed(key) + rest;
  }

  lemma {:induction false} ParsesOps(ops: seq<Op>, rest: bytes)
    requires forall i :: 0 <= i < |ops| ==> Encodable(ops[i])
    ensures ParseOps(EncodeOps(ops) + rest) == (ops + ParseOps(rest).0, ParseOps(rest).1)
    decreases |ops|
  {
    hide EncodeOp, ParseOp;
    if ops == [] {
      assert EncodeOps(ops) + rest == rest && ops + ParseOps(rest).0 == ParseOps(rest).0;
    } else {
      var last := ops[|ops| - 1];
      var front := ops[..|ops| - 1];
      ParsesOps(front, EncodeOp(last) + rest);
      ParsesOp(last, rest);
      assert EncodeOps(ops) + rest == EncodeOps(front) + (EncodeOp(last) + rest);
      assert (EncodeOp(last) + rest)[|EncodeOp(last)|..] == rest;
      assert front + ([last] + ParseOps(rest).0) == ops + ParseOps(rest).0;
    }
  }

  lemma RepFields(sn: nat, ops: seq<Op>)
    requires sn < Pow256(8) && |ops| < 0x8000_0000
    ensures SequenceOf(Rep(sn, ops)) == sn && CountOf(Rep(sn, ops)) == |ops| && Rep(sn, ops)[HEADER..] == EncodeOps(ops)
  {
    hide EncodeFixed, DecodeFixed, EncodeOps, Pow256;
    var rep := Rep(sn, ops);
    Pow256Of4();
    FixedRoundTrip(sn, 8);
    FixedRoundTrip(|ops|, 4);
    assert rep[..8] == EncodeFixed(sn, 8) && rep[8..12] == EncodeFixed(|ops|, 4);
  }

  /** Iterating a batch gives back the operations put into it. */
  lemma BatchRoundTrip(sn: nat, ops: seq<Op>)
    requires sn < Pow256(8) && AllEncodable(ops)
    ensures IterateRep(Rep(sn, ops)) == (ops, Ok)
  {
    RepFields(sn, ops);
    ParsesOps(ops, []);
    assert EncodeOps(ops) + [] == EncodeOps(ops) && ops + [] == ops;
  }

  // ----- Any bytes ---------------------------------------------------------------------

  /** The first `n` bytes are a string after its length. */
  predicate StringAt(b: bytes, s: bytes, n: nat)
  {
    && GetVarint32(b).Some?
    && var (length, start) := GetVarint32(b).value;
       length == |s| && n == start + length <= |b| && b[start..n] == s
  }

  /** The first `n` bytes are an operation: 1, a key and a value, or 0 and a key. */
  ghost predicate OpAt(b: bytes, op: Op, n: nat)
  {
    && 0 < n <= |b|
    && match op
       case Put(key, value) =>
         b[0] == 1 && exists k: nat :: k < n && StringAt(b[1..], key, k) && StringAt(b[1 + k..], value, n - 1 - k)
       case Delete(key) => b[0] == 0 && StringAt(b[1..], key, n - 1)
  }

  /** The first `n` bytes are these operations, one after the other. */
  ghost predicate OpsAt(b: bytes, ops: seq<Op>, n: nat)
    decreases |ops|
  {
    if ops == [] then n == 0
    else exists k: nat :: k <= n && OpAt(b, ops[0], k) && OpsAt(b[k..], ops[1..], n - k)
  }

  lemma StringsAt(b: bytes, s: bytes, n: nat)
    ensures StringAt(b, s, n) <==> GetLengthPrefixed(b) == Some((s, n))
  {
  }

  /** What Iterate says of an operation that cannot be read, by its first byte. */
  function Complaint(kind: byte): string
  {
    if kind == 1 then "bad WriteBatch Put" else if kind == 0 then "bad WriteBatch Delete" else "unknown WriteBatch tag"
  }

  /** No operation stands at the front. */
  ghost predicate NoneAt(b: bytes)
  {
    forall op, k: nat :: !OpAt(b, op, k)
  }

  lemma PutIs(b: bytes, key: bytes, value: bytes, n: nat)
    requires b != [] && b[0] == 1
    ensures ParseOp(b) == Parsed(Put(key, value), n) <==> OpAt(b, Put(key, value), n)
  {
    hide GetLengthPrefixed, StringAt;
    if ParseOp(b) == Parsed(Put(key, value), n) {
      var k := GetLengthPrefixed(b[1..]).value.1;
      StringsAt(b[1..], key, k);
      StringsAt(b[1 + k..], value, n - 1 - k);
    }
    if OpAt(b, Put(key, value), n) {
      var k: nat :| k < n && StringAt(b[1..], key, k) && StringAt(b[1 + k..], value, n - 1 - k);
      StringsAt(b[1..], key, k);
      StringsAt(b[1 + k..], value, n - 1 - k);
    }
  }

  lemma ParsedIs(b: bytes, op: Op, n: nat)
    requires b != []
    ensures ParseOp(b) == Parsed(op, n) <==> OpAt(b, op, n)
  {
    hide GetLengthPrefixed, StringAt;
    match op
    case Put(key, value) =>
      if b[0] == 1 {
        PutIs(b, key, value, n);
      }
    case Delete(key) =>
      if n > 0 {
        StringsAt(b[1..], key, n - 1);
      }
  }

  lemma MalformedIs(b: bytes)
    requires b != [] && ParseOp(b).Malformed?
    ensures NoneAt(b) && ParseOp(b).message == Complaint(b[0])
  {
    hide GetLengthPrefixed, OpAt;
    forall op, k: nat
      ensures !OpAt(b, op, k)
    {
      ParsedIs(b, op, k);
    }
  }

  lemma OneMoreAt(b: bytes, op: Op, k: nat, ops: seq<Op>, n: nat)
    requires OpAt(b, op, k) && OpsAt(b[k..], ops, n)
    ensures OpsAt(b, [op] + ops, k + n)
  {
    hide OpAt;
    var all := [op] + ops;
    assert all[0] == op && all[1..] == ops && k + n - k == n;
  }

  lemma NothingAt(b: bytes)
    ensures OpsAt(b, [], 0)
  {
  }

  lemma {:induction false} ParsedAre(b: bytes) returns (n: nat)
    ensures n <= |b| && OpsAt(b, ParseOps(b).0, n)
    ensures n == |b| ==> ParseOps(b).1 == Ok
    ensures n < |b| ==>
              NoneAt(b[n..]) && ParseOps(b).1 == Corruption(Complaint(b[n]))
    decreases |b|
  {
    hide ParseOp, OpAt, OpsAt, NoneAt, ParseOps, Complaint;
    ParseOpsUnfolds(b);
    NothingAt(b);
    n := 0;
    if b != [] {
      assert b[0..] == b;
      var p := ParseOp(b);
      if p.Malformed? {
        MalformedIs(b);
      } else {
        n := ParsedAre(b[p.length..]);
        assert b[p.length..][n..] == b[p.length + n..];
        ParsedIs(b, p.op, p.length);
        OneMoreAt(b, p.op, p.length, ParseOps(b[p.length..]).0, n);
        n := p.length + n;
      }
    }
  }

  /** What iterating over any bytes yields: the operations they begin with, up to the first place where none stands;
      and success exactly if that is the end and the stored count is theirs. */
  lemma IterationIs(rep: bytes) returns (n: nat)
    ensures var (ops, status) := IterateRep(rep);
            if |rep| < 12 then ops == [] && status == Corruption("malformed WriteBatch (too small)")
            else
              && 12 + n <= |rep| && OpsAt(rep[12..], ops, n)
              && (12 + n == |rep| ==>
                    status == if |ops| == CountOf(rep) then Ok else Corruption("WriteBatch has wrong count"))
              && (12 + n < |rep| ==> status == Corruption(Complaint(rep[12 + n])) && NoneAt(rep[12 + n..]))
  {
    hide ParseOps, OpsAt, OpAt, CountOf, NoneAt, Complaint;
    n := 0;
    if |rep| >= 12 {
      n := ParsedAre(rep[12..]);
      assert rep[12..][n..] == rep[12 + n..];
    }
  }

  lemma {:induction false} EncodeOpsConcat(a: seq<Op>, b: seq<Op>)
    ensures EncodeOps(a + b) == EncodeOps(a) + EncodeOps(b)
    decreases |b|
  {
    hide EncodeOp;
    if b == [] {
      assert a + b == a;
    } else {
      var front := b[..|b| - 1];
      EncodeOpsConcat(a, front);
      assert (a + b)[..|a + b| - 1] == a + front;
      assert (a + b)[|a + b| - 1] == b[|b| - 1];
    }
  }

  /** What appending operations and raising the count does to the bytes. */
  lemma RepExtends(sn: nat, ops: seq<Op>, more: seq<Op>)
    ensures var rep := Rep(sn, ops);
            Rep(sn, ops + more) == rep[..8] + EncodeFixed(|ops| + |more|, 4) + rep[12..] + EncodeOps(more)
    ensures |more| == 1 ==> EncodeOps(more) == EncodeOp(more[0])
  {
    hide EncodeOp, EncodeFixed;
    EncodeOpsConcat(ops, more);
    var rep := Rep(sn, ops);
    assert rep[..8] == EncodeFixed(sn, 8) && rep[12..] == EncodeOps(ops);
    if |more| == 1 {
      assert more[..0] == [];
    }
  }

  lemma ShortString(s: bytes)
    requires |s| < 128
    ensures PutLengthPrefixed(s) == [|s|] + s
  {
  }

  /** The bytes of a batch with short strings: the sequence number in eight bytes and the count in four, the least
      significant first; then 1, the key and the value of a put, or 0 and the key of a deletion, each string after
      its length. */
  lemma BatchLayout(sn: nat, put: Op, delete: Op, i: nat)
    requires put.Put? && |put.key| < 128 && |put.value| < 128 && delete.Delete? && |delete.key| < 128
    ensures var rep := Rep(sn, [put, delete]);
            && rep[8..12] == [2, 0, 0, 0] && (i < 8 ==> rep[i] == (sn / Pow256(i)) % 256)
            && rep[12..] == [1, |put.key|] + put.key + [|put.value|] + put.value + [0, |delete.key|] + delete.key
  {
    hide EncodeFixed, EncodeVarint, Pow256, PutLengthPrefixed, EncodeOps;
    if i < 8 {
      FixedIsLittleEndian(sn, 8, i);
    }
    TwoInFour();
    TwoOps(put, delete);
    ShortString(put.key);
    ShortString(put.value);
    ShortString(delete.key);
    var head, count, ops := EncodeFixed(sn, 8), EncodeFixed(2, 4), EncodeOps([put, delete]);
    assert (head + count + ops)[8..12] == count && (head + count + ops)[12..] == ops;
  }

  lemma TwoOps(a: Op, b: Op)
    ensures EncodeOps([a, b]) == EncodeOp(a) + EncodeOp(b)
  {
    hide EncodeOp;
    assert [a, b][..1] == [a] && [a][..0] == [];
    assert EncodeOps([]) == [];
    assert EncodeOps([a]) == EncodeOps([a][..0]) + EncodeOp(a);
    assert EncodeOps([a, b]) == EncodeOps([a, b][..1]) + EncodeOp(b);
  }

  lemma TwoInFour()
    ensures EncodeFixed(2, 4) == [2, 0, 0, 0]
  {
    assert EncodeFixed(0, 3) == [0] + EncodeFixed(0, 2);
  }

  // ----- The batch object --------------------------------------------------------------

  class WriteBatch {
    var rep: bytes
    // What the bytes stand for.
    ghost var sn: nat
    ghost var ops: seq<Op>

    ghost predicate Valid()
      reads this
    {
      sn < Pow256(8) && AllEncodable(ops) && rep == Rep(sn, ops)
    }

    constructor ()
      ensures Valid() && ops == [] && sn == 0
    {
      rep := seq(HEADER, i => 0);
      sn, ops := 0, [];
      new;
      assert rep == EncodeFixed(0, 8) + EncodeFixed(0, 4);
    }

    method Count() returns (n: int)
      requires Valid()
      ensures n == |ops|
    {
      RepFields(sn, ops);
      n := CountOf(rep);
    }

    method Sequence() returns (n: nat)
      requires Valid()
      ensures n == sn
    {
      RepFields(sn, ops);
      n := SequenceOf(rep);
    }

    method SetSequence(n: nat)
      requires Valid() && n < Pow256(8)
      modifies this
      ensures Valid() && sn == n && ops == old(ops)
    {
      hide EncodeOps, EncodeFixed, Pow256;
      rep := EncodeFixed(n, 8) + rep[8..];
      sn := n;
      assert rep == Rep(sn, ops);
    }

    method Put(key: bytes, value: bytes)
      requires Valid() && |ops| < 0x7fff_ffff && Encodable(Op.Put(key, value))
      modifies this
      ensures Valid() && ops == old(ops) + [Op.Put(key, value)] && sn == old(sn)
    {
      hide EncodeFixed, PutLengthPrefixed, EncodeOps, Pow256, Rep;
      var n := Count();
      RepExtends(sn, ops, [Op.Put(key, value)]);
      SetCount(n + 1);
      rep := rep + [TYPE_VALUE];
      rep := rep + PutLengthPrefixed(key);
      rep := rep + PutLengthPrefixed(value);
      ops := ops + [Op.Put(key, value)];
      assert rep == Rep(sn, ops);
    }

    method Delete(key: bytes)
      requires Valid() && |ops| < 0x7fff_ffff && Encodable(Op.Delete(key))
      modifies this
      ensures Valid() && ops == old(ops) + [Op.Delete(key)] && sn == old(sn)
    {
      hide EncodeFixed, PutLengthPrefixed, EncodeOps, Pow256, Rep;
      var n := Count();
      RepExtends(sn, ops, [Op.Delete(key)]);
      SetCount(n + 1);
      rep := rep + [TYPE_DELETION];
      rep := rep + PutLengthPrefixed(key);
      ops := ops + [Op.Delete(key)];
      assert rep == Rep(sn, ops);
    }

    /** Overwrites the count only: the caller appends the operations it announces. */
    method SetCount(n: nat)
      requires |rep| >= HEADER && n < 0x8000_0000
      modifies this`rep
      ensures rep == old(rep)[..8] + EncodeFixed(n, 4) + old(rep)[12..]
    {
      rep := rep[..8] + EncodeFixed(n, 4) + rep[12..];
    }

    /** Appends the operations of `src`, which may be this batch; the sequence number stays. */
    method Append(src: WriteBatch)
      requires Valid() && src.Valid() && |ops| + |src.ops| < 0x8000_0000
      modifies this
      ensures Valid() && ops == old(ops) + old(src.ops) && sn == old(sn)
    {
      hide EncodeFixed, EncodeOps, Pow256, Rep;
      var n := Count();
      var m := src.Count();
      RepExtends(sn, ops, src.ops);
      SetCount(n + m);
      RepFields(src.sn, src.ops);
      rep := rep + src.rep[HEADER..];
      ops := ops + src.ops;
    }
  }

  // ----- Inserting into a memtable -----------------------------------------------------

  /** The memtable as Iterate sees it: it only ever receives entries. */
  class EntryLog {
    var entries: seq<MemEntry>

    constructor ()
      ensures entries == []
    {
      entries := [];
    }

    method Add(sn: nat, kind: byte, key: bytes, value: bytes)
      modifies this
      ensures entries == old(entries) + [MemEntry(key, sn, kind, value)]
    {
      entries := entries + [MemEntry(key, sn, kind, value)];
    }
  }

  class MemTableInserter {
    var sn: nat
    const mem: EntryLog

    constructor (sn: nat, mem: EntryLog)
      ensures this.sn == sn && this.mem == mem
    {
      this.sn := sn;
      this.mem := mem;
    }

    method Handle(op: Op)
      modifies this, mem
      ensures mem.entries == old(mem.entries) + Numbered(old(sn), [op]) && sn == old(sn) + 1
    {
      match op {
        case Put(key, value) => mem.Add(sn, TYPE_VALUE, key, value);
        case Delete(key) => mem.Add(sn, TYPE_DELETION, key, []);
      }
      assert mem.entries == old(mem.entries) + Numbered(old(sn), [op]);
      sn := sn + 1;
    }
  }

  lemma NumberedConcat(sn: nat, a: seq<Op>, b: seq<Op>)
    ensures Numbered(sn, a + b) == Numbered(sn, a) + Numbered(sn + |a|, b)
  {
  }

  lemma ParseOpsUnfolds(b: bytes)
    ensures ParseOps(b) == (if b == [] then ([], Ok)
                            else var p := ParseOp(b);
                                 if p.Malformed? then ([], Corruption(p.message))
                                 else var rest := ParseOps(b[p.length..]); ([p.op] + rest.0, rest.1))
  {
  }

  lemma ParseMore(done: seq<Op>, op: Op, more: seq<Op>)
    ensures done + ([op] + more) == done + [op] + more
  {
  }

  /** WriteBatch::Iterate on any byte string, well formed or not. */
  method Iterate(rep: bytes, handler: MemTableInserter) returns (status: Status)
    modifies handler, handler.mem
    ensures status == IterateRep(rep).1
    ensures handler.mem.entries == old(handler.mem.entries) + Numbered(old(handler.sn), IterateRep(rep).0)
  {
    hide ParseOp, ParseOps, CountOf, Numbered;
    if |rep| < HEADER {
      assert Numbered(handler.sn, []) == [];
      return Corruption("malformed WriteBatch (too small)");
    }
    var input := rep[HEADER..];
    var found := 0;
    ghost var done: seq<Op> := [];
    ghost var all := ParseOps(input);
    assert [] + all.0 == all.0;
    while input != []
      invariant found == |done|
      invariant all == (done + ParseOps(input).0, ParseOps(input).1)
      invariant handler.sn == old(handler.sn) + |done|
      invariant handler.mem.entries == old(handler.mem.entries) + Numbered(old(handler.sn), done)
      decreases |input|
    {
      found := found + 1;
      var p := ParseOp(input);
      ParseOpsUnfolds(input);
      if p.Malformed? {
        assert all.0 == done;
        return Corruption(p.message);
      }
      ParseMore(done, p.op, ParseOps(input[p.length..]).0);
      handler.Handle(p.op);
      NumberedConcat(old(handler.sn), done, [p.op]);
      done := done + [p.op];
      input := input[p.length..];
    }
    ParseOpsUnfolds(input);
    assert all.0 == done;
    if found != CountOf(rep) {
      return Corruption("WriteBatch has wrong count");
    }
    return Ok;
  }

  /** InsertInto: the operations get consecutive sequence numbers from the batch's own. */
  method InsertInto(rep: bytes, mem: EntryLog) returns (status: Status)
    requires |rep| >= HEADER
    modifies mem
    ensures status == IterateRep(rep).1
    ensures mem.entries == old(mem.entries) + Numbered(SequenceOf(rep), IterateRep(rep).0)
  {
    var inserter := new MemTableInserter(SequenceOf(rep), mem);
    status := Iterate(rep, inserter);
  }
}
