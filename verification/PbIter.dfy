/** The field iterator of nanopb (pb_common.c): it walks the descriptor table round and round, keeping
    the addresses of the current field up to date. */
module PbIter {
  import opened PbMessage
  import opened PbParse

  const PB_SIZE_MAX: int := 0xffff_ffff
  const POINTER_SIZE: nat := 8

  datatype Allocation = Static | Pointer | Callback

  /** What an entry of the table says of the place of its field; the terminator, whose tag is zero, is
      not listed. */
  datatype Place = Place(allocation: Allocation, extension: bool, dataOffset: int, sizeOffset: int)

  function FieldSize(f: Field, p: Place): int
  {
    if p.allocation == Static && f.htype.HRepeated? then f.dataSize * f.arraySize
    else if p.allocation == Pointer then POINTER_SIZE
    else f.dataSize
  }

  predicate SharesUnion(fields: seq<Field>, places: seq<Place>, i: nat)
    requires 0 < i < |fields| == |places|
  {
    fields[i - 1].htype.HOneof? && fields[i].htype.HOneof? && places[i].dataOffset == PB_SIZE_MAX
  }

  /** Where the data of field `i` is, the structure being at `dest`. */
  function DataAt(fields: seq<Field>, places: seq<Place>, dest: int, i: nat): int
    requires i < |fields| == |places|
  {
    if i == 0 then dest + places[0].dataOffset
    else if SharesUnion(fields, places, i) then DataAt(fields, places, dest, i - 1)
    else DataAt(fields, places, dest, i - 1) + FieldSize(fields[i - 1], places[i - 1]) + places[i].dataOffset
  }

  /** Where its count, presence flag or active tag is. */
  function SizeAt(fields: seq<Field>, places: seq<Place>, dest: int, i: nat): int
    requires i < |fields| == |places|
  {
    if i > 0 && SharesUnion(fields, places, i) then SizeAt(fields, places, dest, i - 1)
    else DataAt(fields, places, dest, i) + places[i].sizeOffset
  }

  /** Where a field is in the structure: the offset of its member, and of the count, flag or active tag that goes
      with it. */
  datatype Member = Member(data: int, meta: int)

  /** The bytes of the member itself. */
  function MemberSize(f: Field, p: Place): int
  {
    match p.allocation
    case Static => if f.htype.HRepeated? then f.arraySize * f.dataSize else f.dataSize
    case Pointer => 8
    case Callback => f.dataSize
  }

  /** The table as the macros of pb.h make it from the structure: each field's offset counts from the end of the
      member before it, and the fields of a union share a member. */
  predicate Describes(fields: seq<Field>, places: seq<Place>, members: seq<Member>)
  {
    |fields| == |places| == |members| && forall i :: 0 <= i < |fields| ==> DescribesAt(fields, places, members, i)
  }

  predicate DescribesAt(fields: seq<Field>, places: seq<Place>, members: seq<Member>, i: nat)
    requires i < |fields| == |places| == |members|
  {
    var m, p := members[i], places[i];
    if i == 0 then p.dataOffset == m.data && p.sizeOffset == m.meta - m.data
    else if p.dataOffset == 0xffff_ffff then
      fields[i - 1].htype.HOneof? && fields[i].htype.HOneof? && m == members[i - 1]
    else
      && p.dataOffset == m.data - (members[i - 1].data + MemberSize(fields[i - 1], places[i - 1]))
      && p.sizeOffset == m.meta - m.data
  }

  /** So wherever the iterator stands, its pointers are at the members of the structure. */
  lemma {:induction false} PointsAtMembers(fields: seq<Field>, places: seq<Place>, members: seq<Member>, dest: int,
      i: nat)
    requires Describes(fields, places, members) && i < |fields|
    ensures DataAt(fields, places, dest, i) == dest + members[i].data
    ensures SizeAt(fields, places, dest, i) == dest + members[i].meta
  {
    hide FieldSize, MemberSize;
    assert DescribesAt(fields, places, members, i);
    if i > 0 {
      PointsAtMembers(fields, places, members, dest, i - 1);
      SizesAgree(fields[i - 1], places[i - 1]);
    }
  }

  lemma SizesAgree(f: Field, p: Place)
    ensures FieldSize(f, p) == MemberSize(f, p)
  {
    assert f.dataSize * f.arraySize == f.arraySize * f.dataSize;
  }

  predicate Matches(fields: seq<Field>, places: seq<Place>, i: nat, tag: nat)
    requires i < |fields| == |places|
  {
    fields[i].tag == tag && !places[i].extension
  }

  /** Going round the table from `start`, field `i` comes before field `end`. */
  predicate Between(start: nat, i: int, end: nat)
  {
    if start <= end then start <= i < end else start <= i || i < end
  }

  class FieldIter {
    const fields: seq<Field>
    const places: seq<Place>
    const dest: int
    var pos: nat
    var pData: int
    var pSize: int
    var requiredIndex: nat

    /** Everything depends on the position only. */
    ghost predicate Valid()
      reads this
    {
      && |places| == |fields|
      && (fields == [] ==> pos == 0 && requiredIndex == 0)
      && (fields != [] ==>
            && pos < |fields| && pData == DataAt(fields, places, dest, pos)
              && pSize == SizeAt(fields, places, dest, pos)
            && requiredIndex == RequiredBefore(fields, pos))
    }

    constructor (fields: seq<Field>, places: seq<Place>, dest: int)
      requires |places| == |fields|
      ensures Valid() && this.fields == fields && this.places == places && this.dest == dest && pos == 0
    {
      this.fields := fields;
      this.places := places;
      this.dest := dest;
      pos, requiredIndex, pData, pSize := 0, 0, dest, dest;
      new;
      var any := Begin();
    }

    method Begin() returns (any: bool)
      requires |places| == |fields|
      modifies this
      ensures Valid() && pos == 0 && (any <==> fields != [])
    {
      pos, requiredIndex := 0, 0;
      any := fields != [];
      if any {
        pData := dest + places[0].dataOffset;
        pSize := pData + places[0].sizeOffset;
      }
    }

    /** Moves on, and says whether it did so without starting over. */
    method Next() returns (more: bool)
      requires Valid()
      modifies this
      ensures Valid()
      ensures pos == (if fields == [] || old(pos) + 1 == |fields| then 0 else old(pos) + 1)
      ensures more <==> pos != 0
    {
      if fields == [] {
        return false;
      }
      var prev, place := fields[pos], places[pos];
      pos := pos + 1;
      if pos == |fields| {
        var any := Begin();
        return false;
      }
      var prevSize: int := prev.dataSize;
      if prev.htype.HOneof? && fields[pos].htype.HOneof? && places[pos].dataOffset == PB_SIZE_MAX {
        return true;
      } else if place.allocation == Static && prev.htype.HRepeated? {
        prevSize := prevSize * prev.arraySize;
      } else if place.allocation == Pointer {
        prevSize := POINTER_SIZE;
      }
      if prev.htype == HRequired {
        requiredIndex := requiredIndex + 1;
      }
      pData := pData + prevSize + places[pos].dataOffset;
      pSize := pData + places[pos].sizeOffset;
      return true;
    }

    /** Finds a field by its tag, the first from the current position round to it again. */
    method Find(tag: nat) returns (found: bool)
      requires Valid()
      modifies this
      ensures Valid()
      ensures found <==> exists i :: 0 <= i < |fields| && Matches(fields, places, i, tag)
      ensures found ==> fields != [] && Matches(fields, places, pos, tag)
      ensures found ==> forall i :: 0 <= i < |fields| && Between(old(pos), i, pos) ==> !Matches(fields, places, i, tag)
      ensures !found ==> pos == old(pos)
    {
      var start := pos;
      ghost var steps := 0;
      if fields == [] {
        return false;
      }
      while true
        invariant Valid() && fields != [] && 0 <= steps < |fields|
        invariant pos == (if start + steps < |fields| then start + steps else start + steps - |fields|)
        invariant forall i :: 0 <= i < |fields| && (start <= i < start + steps || i < start + steps - |fields|) ==>
                  !Matches(fields, places, i, tag)
        decreases |fields| - steps
      {
        if fields[pos].tag == tag && !places[pos].extension {
          assert Matches(fields, places, pos, tag);
          return true;
        }
        var more := Next();
        steps := steps + 1;
        if pos == start {
          return false;
        }
      }
    }
  }

  /** The end of pb_decode_noinit: the number of required fields, found by walking the iterator to the
      end of the table from wherever decoding left it. */
  method RequiredCount(iter: FieldIter) returns (count: nat)
    requires iter.Valid()
    modifies iter
    ensures iter.Valid() && count == RequiredBefore(iter.fields, |iter.fields|)
  {
    var fields := iter.fields;
    var last: nat := iter.pos;
    count := iter.requiredIndex;
    var more := iter.Next();
    while more
      invariant iter.Valid() && last <= |fields| && count == RequiredBefore(fields, last)
      invariant fields == [] ==> !more && last == 0
      invariant fields != [] ==> last < |fields| && (if more then iter.pos == last + 1 else last + 1 == |fields|)
      decreases if more then |fields| - iter.pos else 0, more
    {
      count := iter.requiredIndex;
      last := iter.pos;
      more := iter.Next();
    }
    if fields != [] && fields[last].htype == HRequired {
      count := count + 1;
    }
  }
}
