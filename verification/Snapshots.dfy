/** The live snapshots of a database (db/snapshot.h): a circular doubly-linked list around a
    dummy head, oldest first. */
module Snapshots {
  class Snapshot {
    const number: nat
    var prev: Snapshot
    var next: Snapshot

    constructor (number: nat)
      ensures this.number == number && prev == this && next == this
    {
      this.number := number;
      prev, next := this, this;
    }
  }

  ghost predicate Distinct(s: seq<Snapshot>) {
    forall i, j :: 0 <= i < j < |s| ==> s[i] != s[j]
  }

  ghost predicate ByNumber(s: seq<Snapshot>) {
    forall i, j :: 0 <= i <= j < |s| ==> s[i].number <= s[j].number
  }

  /** Each node points to the one behind it, and that one back. */
  ghost predicate Linked(ring: seq<Snapshot>)
    reads ring
  {
    forall i :: 0 <= i < |ring| - 1 ==> ring[i].next == ring[i + 1] && ring[i + 1].prev == ring[i]
  }

  /** A list of nodes without its `i`th. */
  ghost function Cut(s: seq<Snapshot>, i: nat): seq<Snapshot>
    requires i < |s|
  {
    s[..i] + s[i + 1..]
  }

  lemma OneMore(nodes: seq<Snapshot>, s: Snapshot)
    requires Distinct(nodes) && s !in nodes
    ensures Distinct(nodes + [s])
  {
  }

  class SnapshotList {
    const head: Snapshot

    // The live snapshots in the order of their creation.
    ghost var live: seq<Snapshot>

    /** Once around the list, from the head to the head. */
    ghost function Ring(): seq<Snapshot>
      reads this
    {
      [head] + live + [head]
    }

    ghost predicate Valid()
      reads this, head, live
    {
      Distinct([head] + live) && Linked(Ring())
    }

    constructor ()
      ensures Valid() && ByNumber(live) && live == [] && fresh(head)
    {
      head := new Snapshot(0);
      live := [];
    }

    method Empty() returns (r: bool)
      requires Valid()
      ensures r <==> live == []
    {
      assert Ring()[0].next == Ring()[1];
      r := head.next == head;
    }

    /** The oldest live snapshot; no other one reads at an earlier sequence number. */
    method Oldest() returns (r: Snapshot)
      requires Valid() && ByNumber(live) && live != []
      ensures r == live[0] && forall s :: s in live ==> r.number <= s.number
    {
      assert Ring()[0].next == Ring()[1];
      r := head.next;
    }

    /** A snapshot at the last sequence number, which never goes back. */
    method New(number: nat) returns (s: Snapshot)
      requires Valid() && ByNumber(live) && forall x :: x in live ==> x.number <= number
      modifies this, head, head.prev
      ensures Valid() && ByNumber(live) && fresh(s) && s.number == number && live == old(live) + [s]
    {
      s := new Snapshot(number);
      ghost var ring, n := Ring(), |live|;
      OneMore([head] + live, s);
      assert ring[n + 1].prev == ring[n];
      s.next := head;
      s.prev := head.prev;
      s.prev.next := s;
      s.next.prev := s;
      live := live + [s];
      assert Ring() == ring[..n + 1] + [s, head];
      assert [head] + live == [head] + old(live) + [s];
    }

    /** Releases any live snapshot, wherever it is in the list. */
    method Delete(s: Snapshot)
      requires Valid() && ByNumber(live) && s in live
      modifies this, s.prev, s.next
      ensures Valid() && ByNumber(live)
      ensures exists i :: 0 <= i < |old(live)| && old(live)[i] == s && live == Cut(old(live), i)
    {
      hide Distinct, Cut;
      ghost var i :| 0 <= i < |live| && live[i] == s;
      ghost var ring, was := Ring(), live;
      assert ring[i + 1] == s && ring[i].next == s && ring[i + 1].next == ring[i + 2];
      NeighboursDiffer(head, live, i);
      CutKeepsOrder(live, i);
      s.prev.next := s.next;
      s.next.prev := s.prev;
      live := Cut(live, i);
      CutRing(head, was, i);
      forall k | 0 <= k < |Ring()| - 1 ensures Ring()[k].next == Ring()[k + 1] && Ring()[k + 1].prev == Ring()[k] {
        if k != i {
          var at := if k < i then k else k + 1;
          assert Ring()[k] == ring[at] && Ring()[k + 1] == ring[at + 1];
        }
      }
    }

    static lemma CutRing(head: Snapshot, live: seq<Snapshot>, i: nat)
      requires i < |live|
      ensures var ring, cut := [head] + live + [head], [head] + Cut(live, i) + [head];
              |cut| == |ring| - 1 && forall k :: 0 <= k < |cut| ==> cut[k] == ring[if k <= i then k else k + 1]
    {
    }

    static lemma CutKeepsOrder(live: seq<Snapshot>, i: nat)
      requires i < |live| && ByNumber(live)
      ensures ByNumber(Cut(live, i))
    {
      var cut := Cut(live, i);
      forall a, b | 0 <= a <= b < |cut| ensures cut[a].number <= cut[b].number {
        assert live[if a < i then a else a + 1].number <= live[if b < i then b else b + 1].number;
      }
    }

    /** No node but the one before `i` has its successor, and none but the one behind has its
        predecessor. */
    static lemma NeighboursDiffer(head: Snapshot, live: seq<Snapshot>, i: nat)
      requires Distinct([head] + live) && i < |live|
      ensures var ring := [head] + live + [head];
              forall k :: 0 <= k < |ring| - 1 && k != i ==> ring[k] != ring[i]
      ensures var ring := [head] + live + [head];
              forall k :: 0 < k < |ring| && k != i + 2 ==> ring[k] != ring[i + 2]
      ensures Distinct([head] + Cut(live, i))
    {
      var ring, front := [head] + live + [head], [head] + live;
      forall k | 0 <= k < |ring| - 1 && k != i ensures ring[k] != ring[i] {
        assert front[k] != front[i];
      }
      forall k | 0 < k < |ring| && k != i + 2 ensures ring[k] != ring[i + 2] {
        assert front[if k < |front| then k else 0] != front[if i + 2 < |front| then i + 2 else 0];
      }
      var cut := [head] + Cut(live, i);
      forall a, b | 0 <= a < b < |cut| ensures cut[a] != cut[b] {
        assert front[if a <= i then a else a + 1] != front[if b <= i then b else b + 1];
      }
    }

    /** The sequence number a compaction starts from: entries at or below it may hide older
        ones from every reader. */
    method SmallestSnapshot(lastSequence: nat) returns (r: nat)
      requires Valid() && ByNumber(live) && forall x :: x in live ==> x.number <= lastSequence
      ensures r <= lastSequence && forall x :: x in live ==> r <= x.number
      ensures r == lastSequence || exists x :: x in live && x.number == r
    {
      var empty := Empty();
      if empty {
        r := lastSequence;
      } else {
        var s := Oldest();
        r := s.number;
      }
    }
  }
}
