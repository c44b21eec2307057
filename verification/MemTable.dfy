/** The memtable (db/memtable.cc): a skip list of internal keys and the point lookup over it. */
module MemTables {
  import opened InternalKeys
  import opened Options
  import opened SkipLists

  /** Get leaves the status alone, sets it to NotFound, or yields a value. */
  datatype Lookup = Missing | Deleted | Found(value: Value)

  /** The entries in iteration order. */
  ghost function Contents(v: View): (r: seq<Entry>)
    requires Inv(v)
  {
    assert LevelOk(v.keys, v.next[0], v.nodes[0]);
    Walk(v.keys, v.next[0], v.nodes[0], HEAD)
  }

  lemma ContentsAreKeys(v: View)
    requires Inv(v)
    ensures Sorted(Contents(v)) && forall e :: e in Contents(v) <==> e in KeySet(v)
  {
    assert LevelOk(v.keys, v.next[0], v.nodes[0]);
    WalkIsSorted(v.keys, v.next[0], v.nodes[0], HEAD);
  }

  lemma EmptyContents(v: View)
    requires Inv(v) && KeySet(v) == {}
    ensures Contents(v) == []
  {
    if Contents(v) != [] {
      assert Contents(v)[0] in Contents(v);
      ContentsAreKeys(v);
    }
  }

  /** No entry of the key that a reader at `s` may see is newer than `e`. */
  ghost predicate IsNewest(es: seq<Entry>, e: Entry, k: UserKey, s: nat)
  {
    && e in es && Matches(e, k, s)
    && forall f :: f in es && Matches(f, k, s) ==> f.sn <= e.sn
  }

  ghost function Answer(newest: Option<Entry>): Lookup
  {
    match newest
    case None => Missing
    case Some(e) => if e.kind == TypeValue then Lookup.Found(e.value) else Deleted
  }

  /** Seeking to the lookup key (k, s, TypeValue) lands on the newest entry visible at `s`, if any. */
  lemma SeekFindsNewest(v: View, k: UserKey, s: nat, n: int)
    requires Inv(v) && IsLeastFrom(v, Entry(k, s, TypeValue, []), n)
    ensures n != NIL ==> 0 <= n < |v.keys|
    ensures Newest(Contents(v), k, s) == (if n != NIL && v.keys[n].key == k then Some(v.keys[n]) else None)
  {
    ContentsAreKeys(v);
    assert Distinct(v.keys, v.nodes[0]) by {
      assert LevelOk(v.keys, v.next[0], v.nodes[0]);
    }
    var es := Contents(v);
    forall e | e in es && Matches(e, k, s)
      ensures n != NIL && v.keys[n].key == k && e.sn <= v.keys[n].sn
    {
      var z :| z in v.nodes[0] && 0 <= z < |v.keys| && v.keys[z] == e;
      assert z == n || Before(v.keys, n, z);
    }
    if n != NIL && v.keys[n].key == k {
      assert v.keys[n] in KeySet(v);
      NewestUnique(es, k, s, v.keys[n]);
    } else {
      NewestNone(es, k, s);
    }
  }

  class MemTable {
    const table: SkipList

    ghost predicate Valid()
      reads this, table
    {
      Inv(table.Now())
    }

    constructor ()
      ensures Valid() && fresh(table) && Contents(table.Now()) == []
    {
      table := new SkipList();
      new;
      EmptyContents(table.Now());
    }

    /** `height` is the random height of the new skip list node. */
    method Add(s: nat, kind: ValueType, key: UserKey, value: Value, height: nat)
      requires Valid() && 1 <= height <= MAX_HEIGHT
      requires forall e :: e in Contents(table.Now()) ==> (e.key, e.sn) != (key, s)
      modifies table
      ensures Valid() && Sorted(Contents(table.Now()))
      ensures forall e :: e in Contents(table.Now()) <==>
                          e in old(Contents(table.Now())) || e == Entry(key, s, kind, value)
    {
      ContentsAreKeys(table.Now());
      ghost var steps := table.Insert(Entry(key, s, kind, value), height);
      ContentsAreKeys(table.Now());
    }

    method Get(key: UserKey, s: nat) returns (r: Lookup)
      requires Valid()
      ensures r == Answer(Newest(Contents(table.Now()), key, s))
      ensures r == Missing <==> forall e :: e in Contents(table.Now()) ==> !Matches(e, key, s)
      ensures forall e :: IsNewest(Contents(table.Now()), e, key, s) ==>
                            r == if e.kind == TypeDeletion then Deleted else Lookup.Found(e.value)
    {
      ContentsAreKeys(table.Now());
      NewestIsLargest(Contents(table.Now()), key, s);
      var iter := new Iterator(table);
      iter.Seek(Entry(key, s, TypeValue, []));
      SeekFindsNewest(table.Now(), key, s, iter.node);
      if iter.Valid() {
        var entry := iter.Key();
        if entry.key == key {
          match entry.kind
          case TypeValue => return Lookup.Found(entry.value);
          case TypeDeletion => return Deleted;
        }
      }
      return Missing;
    }
  }
}
