/** The list of live snapshots (db/snapshot.h): a circular doubly linked list with a dummy head. */
module Snapshots {

  class SnapshotImpl {
    const sequenceNumber: nat
    var prev: SnapshotImpl?
    var next: SnapshotImpl?

    constructor (sequenceNumber: nat)
      ensures this.sequenceNumber == sequenceNumber
    {
      this.sequenceNumber := sequenceNumber;
      prev, next := null, null;
    }
  }

  class SnapshotList {
    const head: SnapshotImpl
    // The snapshots from the oldest to the newest.
    ghost var nodes: seq<SnapshotImpl>

    /** The ring of a list: before the first snapshot and after the last comes the head. */
    ghost function At(s: seq<SnapshotImpl>, i: int): SnapshotImpl
    {
      if 0 <= i < |s| then s[i] else head
    }

    ghost predicate Linked(s: seq<SnapshotImpl>, i: int)
      reads At(s, i), At(s, i + 1)
    {
      At(s, i).next == At(s, i + 1) && At(s, i + 1).prev == At(s, i)
    }

    ghost predicate Ordered(s: seq<SnapshotImpl>)
    {
      head !in s && forall i, j :: 0 <= i < j < |s| ==> s[i] != s[j] && s[i].sequenceNumber <= s[j].sequenceNumber
    }

    ghost predicate Valid()
      reads this, head, nodes
    {
      head.sequenceNumber == 0 && Ordered(nodes) && forall i :: -1 <= i < |nodes| ==> Linked(nodes, i)
    }

    constructor ()
      ensures Valid() && nodes == [] && fresh(head)
    {
      var h := new SnapshotImpl(0);
      head := h;
      nodes := [];
      new;
      head.prev := head;
      head.next := head;
    }

    method Empty() returns (r: bool)
      requires Valid()
      ensures r <==> nodes == []
    {
      assert Linked(nodes, -1);
      r := head.next == head;
    }

    method Oldest() returns (r: SnapshotImpl)
      requires Valid() && nodes != []
      ensures r == nodes[0] && forall i :: 0 <= i < |nodes| ==> r.sequenceNumber <= nodes[i].sequenceNumber
    {
      assert Linked(nodes, -1);
      r := head.next;
    }

    method Newest() returns (r: SnapshotImpl)
      requires Valid() && nodes != []
      ensures r == nodes[|nodes| - 1] && forall i :: 0 <= i < |nodes| ==> nodes[i].sequenceNumber <= r.sequenceNumber
    {
      assert Linked(nodes, |nodes| - 1);
      r := head.prev;
    }

    method New(sequenceNumber: nat) returns (snapshot: SnapshotImpl)
      requires Valid() && (nodes != [] ==> nodes[|nodes| - 1].sequenceNumber <= sequenceNumber)
      modifies this, head, nodes
      ensures Valid() && fresh(snapshot) && snapshot.sequenceNumber == sequenceNumber
      ensures nodes == old(nodes) + [snapshot]
    {
      assert Linked(nodes, |nodes| - 1);
      snapshot := new SnapshotImpl(sequenceNumber);
      snapshot.next := head;
      snapshot.prev := head.prev;
      snapshot.prev.next := snapshot;
      snapshot.next.prev := snapshot;
      nodes := nodes + [snapshot];
      forall i | -1 <= i < |nodes|
        ensures Linked(nodes, i)
      {
        assert i < |nodes| - 2 ==> old(Linked(nodes, i));
      }
    }

    /** The snapshot must be in this list; `i` was its place. */
    method Delete(snapshot: SnapshotImpl) returns (ghost i: nat)
      requires Valid() && snapshot in nodes
      modifies this, head, nodes
      ensures i < |old(nodes)| && old(nodes)[i] == snapshot
      ensures Valid() && nodes == old(nodes)[..i] + old(nodes)[i + 1..]
    {
      ghost var s := nodes;
      i :| 0 <= i < |s| && s[i] == snapshot;
      assert Linked(s, i - 1) && Linked(s, i);
      snapshot.prev.next := snapshot.next;
      snapshot.next.prev := snapshot.prev;
      nodes := s[..i] + s[i + 1..];
      forall j | -1 <= j < |s| && j != i - 1 && j != i
        ensures Linked(s, j)
      {
        RingIsDistinct(s, i, j);
        assert old(Linked(s, j));
      }
      RingCloses(s, i, nodes);
    }

    lemma RingIsDistinct(s: seq<SnapshotImpl>, i: nat, j: int)
      requires Ordered(s) && i < |s| && -1 <= j < |s| && j != i - 1 && j != i
      ensures At(s, j) != At(s, i - 1) && At(s, j + 1) != At(s, i + 1)
    {
    }

    /** With its two neighbours linked to each other a node can be left out. */
    lemma RingCloses(s: seq<SnapshotImpl>, i: nat, t: seq<SnapshotImpl>)
      requires Ordered(s) && i < |s| && t == s[..i] + s[i + 1..]
      requires At(s, i - 1).next == At(s, i + 1) && At(s, i + 1).prev == At(s, i - 1)
      requires forall j :: -1 <= j < |s| && j != i - 1 && j != i ==> Linked(s, j)
      ensures Ordered(t) && forall j :: -1 <= j < |t| ==> Linked(t, j)
    {
      forall j | -1 <= j < |t|
        ensures Linked(t, j)
      {
        if j < i - 1 {
          assert Linked(s, j);
        } else if j >= i {
          assert Linked(s, j + 1);
        }
      }
    }
  }
}
