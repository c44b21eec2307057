/** Group commit (db/db_impl.cc, Write and BuildBatchGroup): which writers form a group, and what
    every interleaving of writers guarantees. */
module GroupCommit {
  import opened Options
  import opened WriteBatches

  // ----- Which writers form a group ----------------------------------------------------

  /** A queued write; a null batch only asks for room. */
  datatype Item = Item(batch: Option<seq<Op>>, sync: bool)

  function ByteSize(ops: seq<Op>): nat
  {
    HEADER + |EncodeOps(ops)|
  }

  /** A small first write limits the growth of its group. */
  function MaxSize(size: nat): nat
  {
    if size <= 131072 then size + 131072 else 1048576
  }

  function Ops(item: Item): seq<Op>
  {
    if item.batch.Some? then item.batch.value else []
  }

  function GroupOps(items: seq<Item>): seq<Op>
  {
    if items == [] then [] else GroupOps(items[..|items| - 1]) + Ops(items[|items| - 1])
  }

  /** The bytes counted against the limit. */
  function GroupSize(items: seq<Item>): nat
  {
    if items == [] then 0
    else GroupSize(items[..|items| - 1])
         + (if items[|items| - 1].batch.Some? then ByteSize(items[|items| - 1].batch.value) else 0)
  }

  /** Item `n` may follow the items before it into the group of the first. */
  predicate Joins(queue: seq<Item>, n: nat, maxSize: nat)
    requires 0 < n < |queue|
  {
    && !(queue[n].sync && !queue[0].sync)
    && (queue[n].batch.Some? ==> GroupSize(queue[..n + 1]) <= maxSize)
  }

  /** `n` items form the group: each after the first could join, and the next one could not. */
  ghost predicate IsGroup(queue: seq<Item>, n: nat)
  {
    && 0 < n <= |queue| && queue[0].batch.Some?
    && var maxSize := MaxSize(ByteSize(queue[0].batch.value));
       && (forall i :: 0 < i < n ==> Joins(queue, i, maxSize))
       && (n < |queue| ==> !Joins(queue, n, maxSize))
  }

  lemma GroupIsUnique(queue: seq<Item>, m: nat, n: nat)
    requires IsGroup(queue, m) && IsGroup(queue, n)
    ensures m == n
  {
  }

  lemma GroupSizeStep(queue: seq<Item>, n: nat)
    requires n < |queue|
    ensures GroupSize(queue[..n + 1]) == GroupSize(queue[..n])
            + (if queue[n].batch.Some? then ByteSize(queue[n].batch.value) else 0)
    ensures GroupOps(queue[..n + 1]) == GroupOps(queue[..n]) + Ops(queue[n])
  {
    assert queue[..n + 1][..n] == queue[..n] && queue[..n + 1][n] == queue[n];
  }

  /** A sync write is never led by a write that does not sync; and the group stays within its limit
      unless the first write alone exceeds it. */
  lemma {:induction false} GroupLimits(queue: seq<Item>, m: nat, n: nat)
    requires IsGroup(queue, n) && 1 <= m <= n
    ensures forall i :: 0 <= i < n && queue[i].sync ==> queue[0].sync
    ensures var first := ByteSize(queue[0].batch.value);
            GroupSize(queue[..m]) <= MaxSize(first) || GroupSize(queue[..m]) == first > MaxSize(first)
    decreases m
  {
    hide EncodeOps;
    var maxSize := MaxSize(ByteSize(queue[0].batch.value));
    forall i | 0 <= i < n && queue[i].sync
      ensures queue[0].sync
    {
      assert i > 0 ==> Joins(queue, i, maxSize);
    }
    GroupSizeStep(queue, m - 1);
    if m > 1 {
      assert Joins(queue, m - 1, maxSize);
      GroupLimits(queue, m - 1, n);
    } else {
      assert queue[..0] == [];
    }
  }

  lemma {:induction false} SizeGrows(queue: seq<Item>, m: nat, n: nat)
    requires m <= n <= |queue|
    ensures GroupSize(queue[..m]) <= GroupSize(queue[..n])
    decreases n
  {
    hide ByteSize, GroupSize;
    if m < n {
      SizeGrows(queue, m, n - 1);
      GroupSizeStep(queue, n - 1);
    }
  }

  /** All that wait go together as long as a sync write leads if any of them wants a sync, and together they take
      no more than 128 KB besides the first of them, or 1 MB when the first alone takes more than 128 KB. */
  lemma AllJoin(queue: seq<Item>, n: nat)
    requires IsGroup(queue, n) && forall i :: 0 <= i < |queue| && queue[i].sync ==> queue[0].sync
    requires var first := ByteSize(queue[0].batch.value);
             GroupSize(queue) <= (if first <= 128 * 1024 then first + 128 * 1024 else 1024 * 1024)
    ensures n == |queue|
  {
    hide ByteSize, GroupSize;
    assert queue[..|queue|] == queue;
    if n < |queue| {
      SizeGrows(queue, n + 1, |queue|);
    }
  }

  /** A group ends only before a sync write that a plain one may not lead, or before a write that is too much;
      a request for room always goes along. */
  lemma GroupEndsFor(queue: seq<Item>, n: nat)
    requires IsGroup(queue, n) && n < |queue|
    ensures var next, first := queue[n], ByteSize(queue[0].batch.value);
            || (next.sync && !queue[0].sync)
            || (next.batch.Some?
                && GroupSize(queue[..n + 1]) > (if first <= 128 * 1024 then first + 128 * 1024 else 1024 * 1024))
  {
    hide ByteSize, GroupSize;
  }

  /** A writer waiting in the queue, as the source holds it. */
  datatype Writer = Writer(batch: WriteBatch?, sync: bool)

  function Batches(queue: seq<Writer>): set<WriteBatch>
  {
    set i | 0 <= i < |queue| && queue[i].batch != null :: queue[i].batch
  }

  ghost predicate AllValid(queue: seq<Writer>)
    reads Batches(queue)
  {
    forall i :: 0 <= i < |queue| && queue[i].batch != null ==> queue[i].batch.Valid()
  }

  ghost function ItemOf(w: Writer): Item
    reads w.batch
  {
    Item(if w.batch == null then None else Some(w.batch.ops), w.sync)
  }

  ghost function Items(queue: seq<Writer>): (r: seq<Item>)
    reads Batches(queue)
    ensures |r| == |queue|
    ensures forall i :: 0 <= i < |queue| ==> r[i] == ItemOf(queue[i])
  {
    if queue == [] then []
    else
      var n := |queue| - 1;
      assert Batches(queue[..n]) <= Batches(queue) && (queue[n].batch != null ==> queue[n].batch in Batches(queue));
      Items(queue[..n]) + [ItemOf(queue[n])]
  }

  lemma SizeOfRep(b: WriteBatch)
    requires b.Valid()
    ensures |b.rep| == ByteSize(b.ops)
  {
  }

  lemma {:induction false} PrefixOps(items: seq<Item>, n: nat)
    requires n <= |items|
    ensures |GroupOps(items[..n])| <= |GroupOps(items)|
    decreases |items| - n
  {
    if n < |items| {
      GroupSizeStep(items, n);
      PrefixOps(items, n + 1);
    } else {
      assert items[..n] == items;
    }
  }

  /** The batch to log, and the index of the last writer whose write is in it. The first writer's own
      batch is not touched: a group of several is put together in `tmp`. */
  method BuildBatchGroup(queue: seq<Writer>, tmp: WriteBatch) returns (result: WriteBatch, last: nat)
    requires |queue| > 0 && queue[0].batch != null && AllValid(queue)
    requires tmp.Valid() && tmp.ops == [] && forall i :: 0 <= i < |queue| ==> queue[i].batch != tmp
    requires |GroupOps(Items(queue))| < 0x8000_0000
    modifies tmp
    ensures last < |queue| && IsGroup(Items(queue), last + 1)
    ensures result.Valid() && result.ops == GroupOps(Items(queue)[..last + 1])
    ensures result == queue[0].batch || result == tmp
  {
    hide GroupOps, GroupSize, EncodeOps, Rep, AllEncodable, WriteBatch.Valid, ByteSize, Items;
    var first := queue[0];
    result := first.batch;
    var size := |first.batch.rep|;
    var maxSize := 1048576;
    if size <= 131072 {
      maxSize := size + 131072;
    }
    last := 0;
    ghost var items := Items(queue);
    FirstOfGroup(items);
    SizeOfRep(first.batch);
    for i := 1 to |queue|
      invariant last == i - 1 && AllValid(queue) && Items(queue) == items
      invariant size == GroupSize(items[..i]) && result.Valid() && result.ops == GroupOps(items[..i])
      invariant result == first.batch || result == tmp
      invariant result == first.batch ==> tmp.Valid() && tmp.ops == []
      invariant forall j :: 0 < j < i ==> Joins(items, j, maxSize)
    {
      var w := queue[i];
      GroupSizeStep(items, i);
      PrefixOps(items, i + 1);
      assert items[i] == ItemOf(w);
      if w.sync && !first.sync {
        break;
      }
      if w.batch != null {
        SizeOfRep(w.batch);
        size := size + |w.batch.rep|;
        if size > maxSize {
          break;
        }
        if result == first.batch {
          result := tmp;
          result.Append(first.batch);
        }
        result.Append(w.batch);
      }
      last := i;
    }
  }

  lemma FirstOfGroup(items: seq<Item>)
    requires |items| > 0 && items[0].batch.Some?
    ensures GroupSize(items[..1]) == ByteSize(items[0].batch.value) && GroupOps(items[..1]) == items[0].batch.value
  {
    GroupSizeStep(items, 0);
    assert items[..0] == [];
  }
}
