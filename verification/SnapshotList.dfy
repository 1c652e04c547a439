/** The snapshots of a database, oldest first, in a circular doubly-linked list (db/snapshot.h). */
module SnapshotLists {

  class SnapshotImpl {
    var prev: SnapshotImpl
    var next: SnapshotImpl
    const sequenceNumber: nat

    constructor (sequenceNumber: nat)
      ensures this.sequenceNumber == sequenceNumber && prev == this && next == this
    {
      this.sequenceNumber := sequenceNumber;
      prev, next := this, this;
    }
  }

  class SnapshotList {
    const head: SnapshotImpl
    ghost var nodes: seq<SnapshotImpl>

    /** The ring: the dummy head and then the snapshots. */
    ghost function Ring(): seq<SnapshotImpl>
      reads this
    {
      [head] + nodes
    }

    /** The place after place k of a ring of n. */
    static function After(n: nat, k: nat): nat { if k + 1 < n then k + 1 else 0 }

    ghost predicate LinkedAt(ring: seq<SnapshotImpl>, k: nat)
      requires k < |ring|
      reads ring
    {
      ring[k].next == ring[After(|ring|, k)] && ring[After(|ring|, k)].prev == ring[k]
    }

    static ghost predicate Distinct(ring: seq<SnapshotImpl>) {
      forall i, j :: 0 <= i < j < |ring| ==> ring[i] != ring[j]
    }

    ghost predicate Linked(ring: seq<SnapshotImpl>)
      reads ring
    {
      Distinct(ring) && forall k :: 0 <= k < |ring| ==> LinkedAt(ring, k)
    }

    ghost predicate Valid()
      reads this, Ring()
    {
      Linked(Ring()) && Ascending(nodes)
    }

    static ghost predicate Ascending(nodes: seq<SnapshotImpl>) {
      forall i, j :: 0 <= i < j < |nodes| ==> nodes[i].sequenceNumber <= nodes[j].sequenceNumber
    }

    ghost function Numbers(): seq<nat>
      reads this
    {
      seq(|nodes|, i requires 0 <= i < |nodes| reads this => nodes[i].sequenceNumber)
    }

    constructor ()
      ensures Valid() && nodes == [] && fresh(head)
    {
      head := new SnapshotImpl(0);
      nodes := [];
    }

    predicate Empty()
      reads this, head
    {
      head.next == head
    }

    lemma EmptyMeans()
      requires Valid()
      ensures Empty() <==> nodes == []
    {
      assert LinkedAt(Ring(), 0);
    }

    /** oldest: the smallest sequence number of all. */
    method Oldest() returns (s: SnapshotImpl)
      requires Valid() && !Empty()
      ensures s in nodes && forall t :: t in nodes ==> s.sequenceNumber <= t.sequenceNumber
    {
      EmptyMeans();
      assert LinkedAt(Ring(), 0);
      return head.next;
    }

    method Newest() returns (s: SnapshotImpl)
      requires Valid() && !Empty()
      ensures nodes != [] && s == nodes[|nodes| - 1] && forall t :: t in nodes ==> t.sequenceNumber <= s.sequenceNumber
    {
      EmptyMeans();
      assert LinkedAt(Ring(), |nodes|);
      return head.prev;
    }

    method New(sequenceNumber: nat) returns (s: SnapshotImpl)
      requires Valid() && (nodes != [] ==> nodes[|nodes| - 1].sequenceNumber <= sequenceNumber)
      modifies this, Ring()
      ensures Valid() && fresh(s) && s.sequenceNumber == sequenceNumber && nodes == old(nodes) + [s]
    {
      s := new SnapshotImpl(sequenceNumber);
      Append(s);
    }

    /** New, once the node is made. */
    method Append(s: SnapshotImpl)
      requires Valid() && s !in Ring() && (nodes != [] ==> nodes[|nodes| - 1].sequenceNumber <= s.sequenceNumber)
      modifies this, Ring(), s
      ensures Valid() && nodes == old(nodes) + [s]
    {
      ghost var ring := Ring();
      ghost var now := ring + [s];
      assert LinkedAt(ring, |ring| - 1);
      s.next := head;
      s.prev := head.prev;
      s.prev.next := s;
      s.next.prev := s;
      nodes := nodes + [s];
      forall k | 0 <= k < |now| ensures LinkedAt(now, k) {
        if k < |ring| - 1 { assert old(LinkedAt(ring, k)); }
      }
      assert Ring() == now;
    }

    static lemma Cut(ring: seq<SnapshotImpl>, nodes: seq<SnapshotImpl>, i: nat)
      requires |ring| == |nodes| + 1 && nodes == ring[1..] && i < |nodes| && Distinct(ring) && Ascending(nodes)
      ensures Distinct(ring[..i + 1] + ring[i + 2..]) && Ascending(nodes[..i] + nodes[i + 1..])
      ensures [ring[0]] + (nodes[..i] + nodes[i + 1..]) == ring[..i + 1] + ring[i + 2..]
      ensures forall k :: 0 <= k < |ring| && k != i ==> ring[k] != ring[i]
      ensures forall k :: 0 <= k < |ring| && k != After(|ring|, i + 1) ==> ring[k] != ring[After(|ring|, i + 1)]
    {}

    /** Delete, for a snapshot of this list. */
    method Delete(s: SnapshotImpl, ghost i: nat)
      requires Valid() && i < |nodes| && nodes[i] == s
      modifies this, Ring()
      ensures Valid() && nodes == old(nodes[..i] + nodes[i + 1..])
    {
      hide Distinct, Ascending;
      ghost var ring := Ring();
      ghost var now := ring[..i + 1] + ring[i + 2..];
      Cut(ring, nodes, i);
      assert LinkedAt(ring, i) && LinkedAt(ring, i + 1);
      s.prev.next := s.next;
      s.next.prev := s.prev;
      nodes := nodes[..i] + nodes[i + 1..];
      forall k | 0 <= k < |now| ensures LinkedAt(now, k) {
        if k != i { assert old(LinkedAt(ring, if k < i then k else k + 1)); }
      }
      assert Ring() == now;
    }
  }
}
