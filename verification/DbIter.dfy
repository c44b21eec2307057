/** The two-direction user cursor over multi-version entries (db/db_iter.cc), proved to refine
    a cursor over the plain sorted list of visible pairs. */
module DbIter {
  import opened InternalKeys
  import opened Options

  // ----- The visible list --------------------------------------------------------------

  /** The entry at `p` is not newer than the read sequence. */
  predicate Seen(es: seq<Entry>, p: int, s: nat)
    requires 0 <= p < |es|
  {
    es[p].sn <= s
  }

  /** The entry at `p` is what a reader at `s` gets for its key, and is not a deletion. */
  ghost predicate Shows(es: seq<Entry>, p: int, s: nat)
    requires 0 <= p < |es|
  {
    && Seen(es, p, s)
    && es[p].kind == TypeValue
    && forall q :: 0 <= q < p && Seen(es, q, s) ==> es[q].key != es[p].key
  }

  /** Positions of the visible entries among the first `n`, in order. */
  ghost function VisiblePositions(es: seq<Entry>, n: nat, s: nat): (r: seq<nat>)
    requires n <= |es|
  {
    if n == 0 then []
    else VisiblePositions(es, n - 1, s) + (if Shows(es, n - 1, s) then [n - 1] else [])
  }

  /** The list a user iterates over: one (key, value) pair per visible user key. */
  ghost function VisibleList(es: seq<Entry>, s: nat): (r: seq<(UserKey, Value)>)
    ensures |r| == |Positions(es, s)|
  {
    PositionsInRange(es, |es|, s);
    seq(|Positions(es, s)|, i requires 0 <= i < |Positions(es, s)| =>
      (es[Positions(es, s)[i]].key, es[Positions(es, s)[i]].value))
  }

  ghost function Positions(es: seq<Entry>, s: nat): seq<nat>
  {
    VisiblePositions(es, |es|, s)
  }

  lemma {:induction false} PositionsInRange(es: seq<Entry>, n: nat, s: nat)
    requires n <= |es|
    ensures forall i :: 0 <= i < |VisiblePositions(es, n, s)| ==>
              VisiblePositions(es, n, s)[i] < n && Shows(es, VisiblePositions(es, n, s)[i], s)
  {
    if n > 0 {
      PositionsInRange(es, n - 1, s);
    }
  }

  lemma {:induction false} PositionsIncrease(es: seq<Entry>, n: nat, s: nat)
    requires n <= |es|
    ensures forall i, j :: 0 <= i < j < |VisiblePositions(es, n, s)| ==>
              VisiblePositions(es, n, s)[i] < VisiblePositions(es, n, s)[j]
  {
    if n > 0 {
      PositionsIncrease(es, n - 1, s);
      PositionsInRange(es, n - 1, s);
    }
  }

  lemma {:induction false} PositionsComplete(es: seq<Entry>, n: nat, s: nat, p: nat)
    requires p < n <= |es| && Shows(es, p, s)
    ensures p in VisiblePositions(es, n, s)
  {
    if p < n - 1 {
      PositionsComplete(es, n - 1, s, p);
    }
  }

  /** All the facts about Positions at once. */
  lemma PositionFacts(es: seq<Entry>, s: nat)
    ensures forall i :: 0 <= i < |Positions(es, s)| ==>
              0 <= Positions(es, s)[i] < |es| && Shows(es, Positions(es, s)[i], s)
    ensures forall i, j :: 0 <= i < j < |Positions(es, s)| ==> Positions(es, s)[i] < Positions(es, s)[j]
    ensures forall p :: 0 <= p < |es| && Shows(es, p, s) ==> p in Positions(es, s)
  {
    PositionsInRange(es, |es|, s);
    PositionsIncrease(es, |es|, s);
    forall p | 0 <= p < |es| && Shows(es, p, s)
      ensures p in Positions(es, s)
    {
      PositionsComplete(es, |es|, s, p);
    }
  }

  /** The visible list is exactly the snapshot: strictly increasing user keys, and a pair is
      listed if and only if a point read at `s` returns it. */
  lemma VisibleListIsSnapshot(es: seq<Entry>, s: nat)
    requires Sorted(es)
    ensures forall i, j :: 0 <= i < j < |VisibleList(es, s)| ==> VisibleList(es, s)[i].0 < VisibleList(es, s)[j].0
    ensures forall k, v :: (k, v) in VisibleList(es, s) <==>
              (exists e :: Newest(es, k, s) == Some(e) && e.kind == TypeValue && e.value == v)
  {
    PositionFacts(es, s);
    var ps := Positions(es, s);
    var vs := VisibleList(es, s);
    forall i, j | 0 <= i < j < |vs|
      ensures vs[i].0 < vs[j].0
    {
      assert Precedes(es[ps[i]], es[ps[j]]);
      assert Shows(es, ps[j], s) && Seen(es, ps[i], s);
    }
    forall k, v
      ensures (k, v) in vs <==> (exists e :: Newest(es, k, s) == Some(e) && e.kind == TypeValue && e.value == v)
    {
      if (k, v) in vs {
        var i :| 0 <= i < |vs| && vs[i] == (k, v);
        ShownIsNewest(es, ps[i], s);
      }
      if exists e :: Newest(es, k, s) == Some(e) && e.kind == TypeValue && e.value == v {
        var e :| Newest(es, k, s) == Some(e) && e.kind == TypeValue && e.value == v;
        var p := NewestIsShown(es, k, s);
        var i :| 0 <= i < |ps| && ps[i] == p;
        NewestIsLargest(es, k, s);
        assert vs[i] == (es[p].key, es[p].value);
      }
    }
  }

  lemma ShownIsNewest(es: seq<Entry>, p: nat, s: nat)
    requires Sorted(es) && p < |es| && Shows(es, p, s)
    ensures Newest(es, es[p].key, s) == Some(es[p])
  {
    forall e | e in es && Matches(e, es[p].key, s)
      ensures e.sn <= es[p].sn
    {
      var q :| 0 <= q < |es| && es[q] == e;
      assert Seen(es, q, s);
      assert q > p ==> Precedes(es[p], es[q]);
    }
    NewestUnique(es, es[p].key, s, es[p]);
  }

  lemma NewestIsShown(es: seq<Entry>, k: UserKey, s: nat) returns (p: nat)
    requires Sorted(es) && Newest(es, k, s) != None && Newest(es, k, s).value.kind == TypeValue
    ensures p < |es| && Shows(es, p, s) && Newest(es, k, s) == Some(es[p])
  {
    NewestIsLargest(es, k, s);
    var e := Newest(es, k, s).value;
    p :| 0 <= p < |es| && es[p] == e;
    forall q | 0 <= q < p && Seen(es, q, s)
      ensures es[q].key != es[p].key
    {
      assert Precedes(es[q], es[p]);
      assert es[q] in es;
    }
  }

  // ----- The internal iterator ---------------------------------------------------------

  /** The merged internal iterator: a position in the sorted entries, or none. */
  class InternalIterator {
    const entries: seq<Entry>
    var pos: int

    constructor (entries: seq<Entry>)
      ensures this.entries == entries && !Valid()
    {
      this.entries := entries;
      pos := -1;
    }

    predicate Valid()
      reads this
    {
      0 <= pos < |entries|
    }

    method Next()
      requires Valid()
      modifies this
      ensures pos == old(pos) + 1
    {
      pos := pos + 1;
    }

    method Prev()
      requires Valid()
      modifies this
      ensures pos == old(pos) - 1
    {
      pos := pos - 1;
    }

    method SeekToFirst()
      modifies this
      ensures pos == 0
    {
      pos := 0;
    }

    method SeekToLast()
      modifies this
      ensures pos == |entries| - 1
    {
      pos := |entries| - 1;
    }

    /** The first entry at or after the given internal key. */
    method Seek(k: UserKey, sn: nat, kind: ValueType)
      modifies this
      ensures 0 <= pos <= |entries|
      ensures forall p :: 0 <= p < pos ==>
              Compare(entries[p].key, Tag(entries[p].sn, entries[p].kind), k, Tag(sn, kind)) < 0
      ensures pos < |entries| ==>
              Compare(entries[pos].key, Tag(entries[pos].sn, entries[pos].kind), k, Tag(sn, kind)) >= 0
    {
      pos := 0;
      while pos < |entries| && Compare(entries[pos].key, Tag(entries[pos].sn, entries[pos].kind), k, Tag(sn, kind)) < 0
        invariant 0 <= pos <= |entries|
        invariant forall p :: 0 <= p < pos ==>
                  Compare(entries[p].key, Tag(entries[p].sn, entries[p].kind), k, Tag(sn, kind)) < 0
      {
        pos := pos + 1;
      }
    }
  }

  // ----- The list cursor ---------------------------------------------------------------

  datatype Op = OpSeek(target: UserKey) | OpFirst | OpLast | OpNext | OpPrev

  /** The least index whose key is at or after `target`. */
  function LowerBound(list: seq<(UserKey, Value)>, target: UserKey): (i: nat)
    ensures i <= |list|
    ensures forall j :: 0 <= j < i ==> list[j].0 < target
    ensures i < |list| ==> list[i].0 >= target
  {
    if list == [] || list[0].0 >= target then 0 else 1 + LowerBound(list[1..], target)
  }

  function At(list: seq<(UserKey, Value)>, i: int): Option<nat>
  {
    if 0 <= i < |list| then Some(i) else None
  }

  /** One operation of a cursor over a plain list. Next and Prev need a valid cursor. */
  function ListStep(list: seq<(UserKey, Value)>, cursor: Option<nat>, op: Op): Option<nat>
  {
    match op
    case OpSeek(target) => At(list, LowerBound(list, target))
    case OpFirst => At(list, 0)
    case OpLast => At(list, |list| - 1)
    case OpNext => if cursor == None then None else At(list, cursor.value + 1)
    case OpPrev => if cursor == None then None else At(list, cursor.value - 1)
  }

  // ----- The user iterator -------------------------------------------------------------

  datatype Direction = Forward | Reverse

  /** What FindNextUserEntry relies on: an already seen key is one to skip, and skipping never
      has to go back to a smaller key. */
  ghost predicate SkipCovers(es: seq<Entry>, p0: int, s: nat, skipping: bool, skip: UserKey)
    requires 0 <= p0 <= |es|
  {
    && (forall q, r :: 0 <= q < p0 <= r < |es| && Seen(es, q, s) && es[q].key == es[r].key ==>
          skipping && es[r].key <= skip)
    && (skipping ==> forall r :: p0 <= r < |es| && Seen(es, r, s) ==> es[r].key >= skip)
  }

  /** Every entry from `p` on with a key up to `skip` is hidden or was to be skipped anyway. */
  ghost predicate NothingToShow(es: seq<Entry>, p: int, s: nat, skip: UserKey, skipping0: bool, k0: UserKey)
    requires 0 <= p
  {
    forall q :: p <= q < |es| && es[q].key <= skip && Shows(es, q, s) ==> skipping0 && es[q].key <= k0
  }

  /** The state of a forward scan that started at `p0` to skip `k0` and has reached `p`. */
  ghost predicate Scanned(es: seq<Entry>, p0: int, p: int, s: nat, skipping0: bool, k0: UserKey, skipping: bool,
      skip: UserKey)
  {
    && 0 <= p0 <= p <= |es|
    && (forall q :: p0 <= q < p && Shows(es, q, s) ==> skipping0 && es[q].key <= k0)
    && (skipping0 ==> skipping && k0 <= skip)
    && SkipCovers(es, p, s, skipping, skip)
    && (skipping ==> NothingToShow(es, p, s, skip, skipping0, k0))
  }

  /** Where a reverse iterator showing position `p` may rest. */
  ghost predicate RestsBefore(es: seq<Entry>, pos: int, p: int, s: nat)
    requires 0 <= p < |es|
  {
    && -1 <= pos < p
    && (pos >= 0 ==> Seen(es, pos, s) && es[pos].key < es[p].key)
    && forall q :: pos < q < p ==> !Seen(es, q, s)
  }

  class DBIter {
    const iter: InternalIterator
    const sequence: nat
    var direction: Direction
    var valid: bool
    var savedKey: UserKey
    var savedValue: Value
    // The list cursor this iterator refines: an index into the visible list.
    ghost var index: nat

    ghost function List(): seq<(UserKey, Value)>
    {
      VisibleList(iter.entries, sequence)
    }

    ghost function Cursor(): Option<nat>
      reads this
    {
      if valid then Some(index) else None
    }

    /** In reverse the internal iterator rests before the shown entry, with only entries too new
        to be seen in between; it need not be next to it. */
    ghost predicate Valid()
      reads this, iter
    {
      && Sorted(iter.entries)
      && (valid ==> index < |Positions(iter.entries, sequence)|
                    && ShowsAt(Positions(iter.entries, sequence)[index]))
    }

    ghost predicate ShowsAt(p: int)
      reads this, iter
    {
      && 0 <= p < |iter.entries|
      && match direction
         case Forward => iter.pos == p
         case Reverse =>
           && savedKey == iter.entries[p].key
           && savedValue == iter.entries[p].value
           && RestsBefore(iter.entries, iter.pos, p, sequence)
    }

    constructor (iter: InternalIterator, sequence: nat)
      requires Sorted(iter.entries)
      ensures Valid() && this.iter == iter && this.sequence == sequence && Cursor() == None
    {
      this.iter := iter;
      this.sequence := sequence;
      direction := Forward;
      valid := false;
      savedKey, savedValue := *, [];
      index := 0;
    }

    method Key() returns (k: UserKey)
      requires Valid() && valid
      ensures k == List()[index].0
    {
      k := if direction == Forward then iter.entries[iter.pos].key else savedKey;
    }

    method ReadValue() returns (v: Value)
      requires Valid() && valid
      ensures v == List()[index].1
    {
      v := if direction == Forward then iter.entries[iter.pos].value else savedValue;
    }

    method FindNextUserEntry(skipping0: bool)
      requires Sorted(iter.entries) && iter.Valid() && direction == Forward
      requires SkipCovers(iter.entries, iter.pos, sequence, skipping0, savedKey)
      modifies this, iter
      ensures direction == Forward && index == old(index)
      ensures valid ==> old(iter.pos) <= iter.pos < |iter.entries| && Shows(iter.entries, iter.pos, sequence)
                        && (skipping0 ==> iter.entries[iter.pos].key > old(savedKey))
      ensures forall q :: (old(iter.pos) <= q < (if valid then iter.pos else |iter.entries|)
                           && Shows(iter.entries, q, sequence)) ==> skipping0 && iter.entries[q].key <= old(savedKey)
    {
      hide Sorted, Shows, Scanned, SkipCovers;
      ghost var es, s, p0, k0 := iter.entries, sequence, iter.pos, savedKey;
      ScanStarts(es, p0, s, skipping0, k0);
      var skipping := skipping0;
      while iter.Valid()
        invariant direction == Forward && index == old(index)
        invariant 0 <= p0 <= iter.pos <= |es| && Scanned(es, p0, iter.pos, s, skipping0, k0, skipping, savedKey)
        decreases |es| - iter.pos
      {
        var ikey := iter.entries[iter.pos];
        if ikey.sn <= sequence {
          if ikey.kind == TypeDeletion {
            ScanStep(es, p0, iter.pos, s, skipping0, k0, skipping, savedKey, true, ikey.key);
            savedKey := ikey.key;
            skipping := true;
          } else if skipping && ikey.key <= savedKey {
            ScanStep(es, p0, iter.pos, s, skipping0, k0, skipping, savedKey, skipping, savedKey);
          } else {
            ScanStops(es, p0, iter.pos, s, skipping0, k0, skipping, savedKey);
            valid := true;
            savedKey := *;
            return;
          }
        } else {
          ScanStep(es, p0, iter.pos, s, skipping0, k0, skipping, savedKey, skipping, savedKey);
        }
        iter.Next();
      }
      ScanEnds(es, p0, s, skipping0, k0, skipping, savedKey);
      savedKey := *;
      valid := false;
    }

    method Next()
      requires Valid() && valid
      modifies this, iter
      ensures Valid() && Cursor() == ListStep(List(), old(Cursor()), OpNext)
    {
      hide Sorted, Shows, Positions, SkipCovers;
      PositionShown(iter.entries, sequence, index);
      ghost var p := Positions(iter.entries, sequence)[index];
      if direction == Reverse {
        direction := Forward;
        if !iter.Valid() {
          iter.SeekToFirst();
        } else {
          iter.Next();
        }
        // The source checks for the end here, but the entry last yielded still lies ahead.
        assert iter.Valid();
      } else {
        savedKey := iter.entries[iter.pos].key;
      }
      SkipFromShown(iter.entries, iter.pos, p, sequence);
      FindNextUserEntry(true);
      if valid {
        NextPosition(iter.entries, sequence, index, p, iter.pos);
        index := index + 1;
      } else {
        NoNextPosition(iter.entries, sequence, index, p);
      }
    }

    /** Scans backward for the last shown entry at or before the internal position. */
    method FindPrevUserEntry() returns (ghost p: int)
      requires Sorted(iter.entries) && -1 <= iter.pos < |iter.entries| && direction == Reverse
      modifies this, iter
      ensures index == old(index)
      ensures valid ==>
              direction == Reverse && 0 <= p <= old(iter.pos) && Shows(iter.entries, p, sequence) && ShowsAt(p)
      ensures forall q :: (if valid then p else -1) < q <= old(iter.pos) ==> !Shows(iter.entries, q, sequence)
    {
      ghost var es, s, p1 := iter.entries, sequence, iter.pos;
      var valueType := TypeDeletion;
      p := -1;
      while iter.Valid()
        invariant -1 <= iter.pos <= p1 < |es|
        invariant direction == Reverse && index == old(index)
        invariant valueType == TypeValue ==>
            && iter.pos < p <= p1
            && Seen(es, p, s) && es[p].kind == TypeValue
            && savedKey == es[p].key && savedValue == es[p].value
            && forall q :: iter.pos < q < p ==> !Seen(es, q, s)
        invariant forall q :: iter.pos < q <= p1 && !(valueType == TypeValue && q == p) ==> !Shows(es, q, s)
        decreases iter.pos
      {
        var ikey := iter.entries[iter.pos];
        if ikey.sn <= sequence {
          assert Seen(es, iter.pos, s);
          if valueType != TypeDeletion && ikey.key < savedKey {
            break;
          }
          assert valueType != TypeDeletion ==> Precedes(es[iter.pos], es[p]);
          valueType := ikey.kind;
          if valueType == TypeDeletion {
            savedKey, savedValue := *, [];
          } else {
            savedKey := ikey.key;
            savedValue := iter.entries[iter.pos].value;
            p := iter.pos;
          }
        }
        iter.Prev();
      }
      if valueType == TypeDeletion {
        valid := false;
        savedKey, savedValue := *, [];
        direction := Forward;
      } else {
        valid := true;
        RestingShows(es, iter.pos, p, s);
      }
    }

    method Prev()
      requires Valid() && valid
      modifies this, iter
      ensures Valid() && Cursor() == ListStep(List(), old(Cursor()), OpPrev)
    {
      ghost var es, s := iter.entries, sequence;
      PositionShown(es, s, index);
      ghost var p := Positions(es, s)[index];
      if direction == Forward {
        savedKey := iter.entries[iter.pos].key;
        while true
          invariant 0 <= iter.pos <= p
          invariant valid && direction == Forward && index == old(index) && savedKey == es[p].key
          invariant forall q :: iter.pos < q < p ==> !Shows(es, q, s)
          invariant iter.pos < p ==> es[iter.pos].key == savedKey
          decreases iter.pos
        {
          assert !Shows(es, iter.pos, s) || iter.pos == p;
          iter.Prev();
          if !iter.Valid() {
            valid := false;
            savedKey, savedValue := *, [];
            NoPrevPosition(es, s, index);
            return;
          }
          assert Precedes(es[iter.pos], es[p]);
          if iter.entries[iter.pos].key < savedKey {
            break;
          }
        }
        direction := Reverse;
      }
      assert forall q :: iter.pos < q < p ==> !Shows(es, q, s);
      ghost var found := FindPrevUserEntry();
      if valid {
        PrevPosition(es, s, index, found);
        index := index - 1;
      } else {
        NoPrevPosition(es, s, index);
      }
    }

    method Seek(target: UserKey)
      requires Valid()
      modifies this, iter
      ensures Valid() && Cursor() == ListStep(List(), old(Cursor()), OpSeek(target))
    {
      PositionFacts(iter.entries, sequence);
      direction := Forward;
      savedKey, savedValue := *, [];
      iter.Seek(target, sequence, TypeValue);
      ghost var p0 := iter.pos;
      SeekLands(iter.entries, p0, sequence, target);
      if iter.Valid() {
        FindNextUserEntry(false);
      } else {
        valid := false;
      }
      FirstPosition(iter.entries, sequence, target, if valid then iter.pos else |iter.entries|);
      index := LowerBound(List(), target);
    }

    method SeekToFirst()
      requires Valid()
      modifies this, iter
      ensures Valid() && Cursor() == ListStep(List(), old(Cursor()), OpFirst)
    {
      PositionFacts(iter.entries, sequence);
      direction := Forward;
      savedValue := [];
      iter.SeekToFirst();
      if iter.Valid() {
        FindNextUserEntry(false);
      } else {
        valid := false;
      }
      LeastPosition(iter.entries, sequence, if valid then iter.pos else |iter.entries|);
      index := 0;
    }

    method SeekToLast()
      requires Valid()
      modifies this, iter
      ensures Valid() && Cursor() == ListStep(List(), old(Cursor()), OpLast)
    {
      PositionFacts(iter.entries, sequence);
      direction := Reverse;
      savedValue := [];
      iter.SeekToLast();
      ghost var p := FindPrevUserEntry();
      GreatestPosition(iter.entries, sequence, if valid then p else -1);
      if valid {
        index := |List()| - 1;
      }
    }
  }

  // ----- Positions and scans -----------------------------------------------------------

  lemma SortedFrom(es: seq<Entry>, p: int)
    requires Sorted(es) && 0 <= p < |es|
    ensures forall q :: p <= q < |es| ==> es[p].key <= es[q].key
  {
    forall q | p < q < |es|
      ensures es[p].key <= es[q].key
    {
      assert Precedes(es[p], es[q]);
    }
  }

  lemma ScanStep(es: seq<Entry>, p0: int, p: int, s: nat, skipping0: bool, k0: UserKey,
                 skipping: bool, skip: UserKey, skipping': bool, skip': UserKey)
    requires Sorted(es) && p < |es| && Scanned(es, p0, p, s, skipping0, k0, skipping, skip)
    requires Seen(es, p, s) && es[p].kind == TypeDeletion ==> skipping' && skip' == es[p].key
    requires Seen(es, p, s) && es[p].kind == TypeValue ==> skipping && es[p].key <= skip
    requires !(Seen(es, p, s) && es[p].kind == TypeDeletion) ==> skipping' == skipping && skip' == skip
    ensures Scanned(es, p0, p + 1, s, skipping0, k0, skipping', skip')
  {
    if Seen(es, p, s) && es[p].kind == TypeDeletion {
      SortedFrom(es, p);
      assert forall q :: p + 1 <= q < |es| && es[q].key == es[p].key ==> !Shows(es, q, s);
    }
  }

  lemma ScanStarts(es: seq<Entry>, p0: int, s: nat, skipping0: bool, k0: UserKey)
    requires 0 <= p0 <= |es| && SkipCovers(es, p0, s, skipping0, k0)
    ensures Scanned(es, p0, p0, s, skipping0, k0, skipping0, k0)
  {
  }

  lemma ScanStops(es: seq<Entry>, p0: int, p: int, s: nat, skipping0: bool, k0: UserKey, skipping: bool, skip: UserKey)
    requires p < |es| && Scanned(es, p0, p, s, skipping0, k0, skipping, skip)
    requires Seen(es, p, s) && es[p].kind == TypeValue && !(skipping && es[p].key <= skip)
    ensures Shows(es, p, s) && (skipping0 ==> es[p].key > k0)
    ensures forall q :: p0 <= q < p && Shows(es, q, s) ==> skipping0 && es[q].key <= k0
  {
  }

  lemma ScanEnds(es: seq<Entry>, p0: int, s: nat, skipping0: bool, k0: UserKey, skipping: bool, skip: UserKey)
    requires Scanned(es, p0, |es|, s, skipping0, k0, skipping, skip)
    ensures forall q :: p0 <= q < |es| && Shows(es, q, s) ==> skipping0 && es[q].key <= k0
  {
  }

  /** The precondition of the forward scan when leaving the shown position `p`. */
  lemma SkipFromShown(es: seq<Entry>, pos: int, p: int, s: nat)
    requires Sorted(es) && 0 <= pos <= p < |es| && Shows(es, p, s)
    requires forall q :: pos <= q < p ==> !Seen(es, q, s)
    ensures SkipCovers(es, pos, s, true, es[p].key)
  {
    forall q, r | 0 <= q < pos <= r < |es| && Seen(es, q, s) && es[q].key == es[r].key
      ensures es[r].key <= es[p].key
    {
      assert q < p ==> Precedes(es[q], es[p]);
    }
    SortedFrom(es, p);
  }

  lemma RestingShows(es: seq<Entry>, pos: int, p: int, s: nat)
    requires Sorted(es) && 0 <= p < |es| && RestsBefore(es, pos, p, s)
    requires Seen(es, p, s) && es[p].kind == TypeValue
    ensures Shows(es, p, s)
  {
    forall q | 0 <= q < p && Seen(es, q, s)
      ensures es[q].key != es[p].key
    {
      assert q <= pos;
      assert q < pos ==> Precedes(es[q], es[pos]);
    }
  }

  lemma ShownOrder(es: seq<Entry>, p: int, q: int, s: nat)
    requires Sorted(es) && 0 <= p < |es| && 0 <= q < |es| && Shows(es, p, s) && Shows(es, q, s)
    ensures q > p <==> es[q].key > es[p].key
  {
    if q > p {
      assert Precedes(es[p], es[q]) && Seen(es, p, s);
    } else if q < p {
      assert Precedes(es[q], es[p]);
    }
  }

  lemma PositionShown(es: seq<Entry>, s: nat, i: nat)
    requires i < |Positions(es, s)|
    ensures Positions(es, s)[i] < |es| && Shows(es, Positions(es, s)[i], s)
  {
    PositionFacts(es, s);
  }

  lemma NextPosition(es: seq<Entry>, s: nat, i: nat, p0: nat, p: int)
    requires Sorted(es) && i < |Positions(es, s)|
    requires Positions(es, s)[i] == p0 < |es|
    requires 0 <= p < |es| && Shows(es, p, s) && es[p].key > es[p0].key
    requires forall q :: p0 < q < p && Shows(es, q, s) ==> es[q].key <= es[p0].key
    ensures i + 1 < |Positions(es, s)| && Positions(es, s)[i + 1] == p
  {
    PositionFacts(es, s);
    var ps := Positions(es, s);
    ShownOrder(es, ps[i], p, s);
    var j :| 0 <= j < |ps| && ps[j] == p;
    assert j > i;
    ShownOrder(es, ps[i], ps[i + 1], s);
  }

  lemma NotAfter(es: seq<Entry>, s: nat, p0: nat, p: nat)
    requires Sorted(es) && p0 < |es| && p < |es| && Shows(es, p0, s) && Shows(es, p, s)
    requires forall q :: p0 < q < |es| && Shows(es, q, s) ==> es[q].key <= es[p0].key
    ensures p <= p0
  {
    ShownOrder(es, p0, p, s);
  }

  lemma NoNextPosition(es: seq<Entry>, s: nat, i: nat, p0: nat)
    requires Sorted(es) && i < |Positions(es, s)|
    requires Positions(es, s)[i] == p0 < |es|
    requires forall q :: p0 < q < |es| && Shows(es, q, s) ==> es[q].key <= es[p0].key
    ensures i + 1 == |Positions(es, s)|
  {
    PositionFacts(es, s);
    var ps := Positions(es, s);
    assert i + 1 < |ps| ==> ps[i] < ps[i + 1];
    forall j | 0 <= j < |ps|
      ensures ps[j] <= p0
    {
      NotAfter(es, s, p0, ps[j]);
    }
  }

  lemma PrevPosition(es: seq<Entry>, s: nat, i: nat, p: int)
    requires i < |Positions(es, s)|
    requires 0 <= p < Positions(es, s)[i] && p < |es| && Shows(es, p, s)
    requires forall q :: p < q < Positions(es, s)[i] && q < |es| ==> !Shows(es, q, s)
    ensures i > 0 && Positions(es, s)[i - 1] == p
  {
    PositionFacts(es, s);
    var ps := Positions(es, s);
    var j :| 0 <= j < |ps| && ps[j] == p;
    assert j < i;
  }

  lemma NoPrevPosition(es: seq<Entry>, s: nat, i: nat)
    requires i < |Positions(es, s)|
    requires forall q :: 0 <= q < Positions(es, s)[i] && q < |es| ==> !Shows(es, q, s)
    ensures i == 0
  {
    PositionFacts(es, s);
    var ps := Positions(es, s);
    assert Shows(es, ps[0], s);
  }

  lemma LeastPosition(es: seq<Entry>, s: nat, p: int)
    requires 0 <= p <= |es| && (p < |es| ==> Shows(es, p, s))
    requires forall q :: 0 <= q < p ==> !Shows(es, q, s)
    ensures p < |es| <==> |Positions(es, s)| > 0
    ensures p < |es| ==> Positions(es, s)[0] == p
  {
    PositionFacts(es, s);
    if p < |es| {
      var j :| 0 <= j < |Positions(es, s)| && Positions(es, s)[j] == p;
    }
  }

  lemma GreatestPosition(es: seq<Entry>, s: nat, p: int)
    requires -1 <= p < |es| && (p >= 0 ==> Shows(es, p, s))
    requires forall q :: p < q < |es| ==> !Shows(es, q, s)
    ensures p >= 0 <==> |Positions(es, s)| > 0
    ensures p >= 0 ==> Positions(es, s)[|Positions(es, s)| - 1] == p
  {
    PositionFacts(es, s);
    if p >= 0 {
      var j :| 0 <= j < |Positions(es, s)| && Positions(es, s)[j] == p;
    }
  }

  /** After the internal seek: everything seen before it is before the target, nothing after it is. */
  lemma SeekLands(es: seq<Entry>, p0: int, s: nat, target: UserKey)
    requires Sorted(es) && 0 <= p0 <= |es|
    requires forall p :: 0 <= p < p0 ==> Compare(es[p].key, Tag(es[p].sn, es[p].kind), target, Tag(s, TypeValue)) < 0
    requires p0 < |es| ==> Compare(es[p0].key, Tag(es[p0].sn, es[p0].kind), target, Tag(s, TypeValue)) >= 0
    ensures forall q :: 0 <= q < p0 && Seen(es, q, s) ==> es[q].key < target
    ensures forall q :: p0 <= q < |es| ==> es[q].key >= target
    ensures p0 < |es| ==> SkipCovers(es, p0, s, false, 0)
  {
    if p0 < |es| {
      SortedFrom(es, p0);
    }
  }

  lemma FirstPosition(es: seq<Entry>, s: nat, target: UserKey, p: int)
    requires Sorted(es) && 0 <= p <= |es| && (p < |es| ==> Shows(es, p, s) && es[p].key >= target)
    requires forall q :: 0 <= q < p && Shows(es, q, s) ==> es[q].key < target
    ensures p < |es| <==> LowerBound(VisibleList(es, s), target) < |VisibleList(es, s)|
    ensures p < |es| ==> Positions(es, s)[LowerBound(VisibleList(es, s), target)] == p
  {
    PositionFacts(es, s);
    var vs, ps := VisibleList(es, s), Positions(es, s);
    var b := LowerBound(vs, target);
    if p < |es| {
      var j :| 0 <= j < |ps| && ps[j] == p;
      assert vs[j].0 >= target;
      assert b <= j;
    }
  }
}
