/** Internal keys of the LSM engine: a user key, a sequence number and a type (db/dbformat.h).
    A user key is an `int`: its rank in the user comparator's order. The engine only ever
    compares user keys, and every finite set of keys under a total order is isomorphic to a
    set of integers. */
module InternalKeys {
  import opened Options

  type UserKey = int
  type Value = seq<int>

  const MAX_SEQUENCE_NUMBER: nat := 0x100_0000_0000_0000 - 1

  datatype ValueType = TypeDeletion | TypeValue

  datatype Entry = Entry(key: UserKey, sn: nat, kind: ValueType, value: Value)

  /** The last eight bytes of an encoded internal key (PackSequenceAndType). */
  function Tag(sn: nat, kind: ValueType): nat
  {
    sn * 256 + (if kind == TypeDeletion then 0 else 1)
  }

  /** InternalKeyComparator::Compare: increasing user key, then decreasing tag. */
  function Compare(aKey: UserKey, aTag: nat, bKey: UserKey, bTag: nat): int
  {
    if aKey < bKey then -1
    else if aKey > bKey then 1
    else if aTag > bTag then -1
    else if aTag < bTag then 1
    else 0
  }

  predicate Precedes(a: Entry, b: Entry)
  {
    a.key < b.key || (a.key == b.key && a.sn > b.sn)
  }

  /** Sorted in internal-key order with distinct (user key, sequence) pairs. */
  ghost predicate Sorted(es: seq<Entry>)
  {
    forall i, j :: 0 <= i < j < |es| ==> Precedes(es[i], es[j])
  }

  lemma ComparatorAgrees(a: Entry, b: Entry)
    requires (a.key, a.sn) != (b.key, b.sn)
    ensures Compare(a.key, Tag(a.sn, a.kind), b.key, Tag(b.sn, b.kind)) < 0 <==> Precedes(a, b)
    ensures Compare(a.key, Tag(a.sn, a.kind), b.key, Tag(b.sn, b.kind)) > 0 <==> Precedes(b, a)
  {
  }

  /** The entry a reader at snapshot `s` finds for `k`: the first one in key order whose
      sequence number is not too large. */
  function Newest(es: seq<Entry>, k: UserKey, s: nat): (r: Option<Entry>)
  {
    if es == [] then None
    else if es[0].key == k && es[0].sn <= s then Some(es[0])
    else Newest(es[1..], k, s)
  }

  ghost predicate Matches(e: Entry, k: UserKey, s: nat)
  {
    e.key == k && e.sn <= s
  }

  /** On sorted entries, Newest is the entry with the largest sequence number not above `s`. */
  lemma {:induction false} NewestIsLargest(es: seq<Entry>, k: UserKey, s: nat)
    requires Sorted(es)
    ensures Newest(es, k, s) == None ==> forall e :: e in es ==> !Matches(e, k, s)
    ensures Newest(es, k, s) != None ==>
              var n := Newest(es, k, s).value;
              && n in es && Matches(n, k, s)
              && forall e :: e in es && Matches(e, k, s) ==> e.sn <= n.sn && (e.sn == n.sn ==> e == n)
  {
    if es != [] && !Matches(es[0], k, s) {
      assert Sorted(es[1..]);
      NewestIsLargest(es[1..], k, s);
      assert forall e :: e in es <==> e == es[0] || e in es[1..];
    }
  }

  lemma NewestUnique(es: seq<Entry>, k: UserKey, s: nat, n: Entry)
    requires Sorted(es)
    requires n in es && Matches(n, k, s)
    requires forall e :: e in es && Matches(e, k, s) ==> e.sn <= n.sn
    ensures Newest(es, k, s) == Some(n)
  {
    NewestIsLargest(es, k, s);
  }

  lemma NewestNone(es: seq<Entry>, k: UserKey, s: nat)
    requires Sorted(es)
    requires forall e :: e in es ==> !Matches(e, k, s)
    ensures Newest(es, k, s) == None
  {
    NewestIsLargest(es, k, s);
  }
}
