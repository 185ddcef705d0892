/**
 The list of out-of-order segments: nodes linked in both directions around a
 head.  Insertion works with a copy of the head, so a node put before the
 first one is linked to the copy and not to the list.
 */
module OfoList {
  import opened RingBuffer

  datatype Segment = Segment(start: nat, payload: seq<Byte>)

  function SeqEnd(s: Segment): nat {
    s.start + |s.payload|
  }

  ghost predicate Ascending(s: seq<Segment>) {
    forall i, j :: 0 <= i < j < |s| ==> s[i].start < s[j].start
  }

  /** The sorted insertion the buffer is meant to perform; an equal sequence number is ignored. */
  function Inserted(s: seq<Segment>, x: Segment): seq<Segment> {
    if s == [] then [x]
    else if x.start > s[0].start then [s[0]] + Inserted(s[1..], x)
    else if x.start == s[0].start then s
    else [x] + s
  }

  lemma {:induction false} InsertedAscending(s: seq<Segment>, x: Segment)
    requires Ascending(s)
    ensures Ascending(Inserted(s, x))
    ensures forall y :: y in Inserted(s, x) ==> y in s || y == x
    ensures forall y :: y in s ==> y in Inserted(s, x)
    ensures x in Inserted(s, x) || exists y :: y in s && y.start == x.start
  {
    if s != [] && x.start > s[0].start {
      InsertedAscending(s[1..], x);
      assert s == [s[0]] + s[1..];
      forall y | y in Inserted(s[1..], x)
        ensures s[0].start < y.start
      {
        if y in s[1..] {
          var i :| 0 <= i < |s| - 1 && s[1..][i] == y;
          assert s[i + 1] == y;
        }
      }
      assert forall i :: 0 <= i < |Inserted(s[1..], x)| ==> Inserted(s[1..], x)[i] in Inserted(s[1..], x);
    }
  }

  /** Insertion behind all smaller elements. */
  lemma {:induction false} InsertedAt(s: seq<Segment>, x: Segment, k: nat)
    requires k <= |s| && (forall i :: 0 <= i < k ==> s[i].start < x.start) && (k < |s| ==> x.start <= s[k].start)
    ensures Inserted(s, x) == if k < |s| && s[k].start == x.start then s else s[..k] + [x] + s[k..]
  {
    if k > 0 {
      InsertedAt(s[1..], x, k - 1);
      assert s == [s[0]] + s[1..];
      assert [s[0]] + s[1..][..k - 1] == s[..k] && s[1..][k - 1..] == s[k..];
    } else if s != [] {
      assert s[..0] == [];
    }
  }

  class Entry {
    var next: Entry?
    var prev: Entry?
    const segment: Segment

    constructor (segment: Segment)
      ensures this.segment == segment
    {
      this.segment := segment;
      next, prev := null, null;
    }
  }

  /** Links `e` between two neighbours. */
  method ListInsert(e: Entry, prev: Entry, next: Entry)
    requires e != prev && e != next
    modifies e`next, e`prev, prev`next, next`prev
    ensures next.prev == e && prev.next == e && e.next == next && e.prev == prev
  {
    next.prev := e;
    prev.next := e;
    e.next := next;
    e.prev := prev;
  }

  class List {
    const head: Entry
    ghost var nodes: seq<Entry>

    ghost function At(i: int): Entry
      reads this
    {
      if 0 <= i < |nodes| then nodes[i] else head
    }

    /** Neighbours point at each other, around the head. */
    ghost predicate LinkedAt(i: int)
      reads this, head, nodes
    {
      At(i).next == At(i + 1) && At(i + 1).prev == At(i)
    }

    ghost predicate Linked()
      reads this, head, nodes
    {
      forall i {:trigger LinkedAt(i)} :: -1 <= i < |nodes| ==> LinkedAt(i)
    }

    ghost predicate Distinct()
      reads this
    {
      head !in nodes && forall i, j :: 0 <= i < j < |nodes| ==> nodes[i] != nodes[j]
    }

    ghost predicate Valid()
      reads this, head, nodes
    {
      Distinct() && Linked() && Ascending(Segments())
    }

    ghost function Segments(): seq<Segment>
      reads this
    {
      seq(|nodes|, i requires 0 <= i < |nodes| reads this => nodes[i].segment)
    }

    constructor ()
      ensures Valid() && nodes == [] && fresh(head)
    {
      head := new Entry(Segment(0, []));
      nodes := [];
      new;
      head.next := head;
      head.prev := head;
    }

    /** Where the scan of an insertion stops: behind all smaller segments. */
    method Seek(x: nat, headCopy: Entry) returns (last: Entry, pos: Entry, ghost k: nat)
      requires Valid() && headCopy != head && headCopy !in nodes
      ensures k <= |nodes| && pos == At(k)
      ensures last == if k == 0 then headCopy else nodes[k - 1]
      ensures forall i :: 0 <= i < k ==> nodes[i].segment.start < x
      ensures k < |nodes| ==> x <= nodes[k].segment.start
    {
      last, k := headCopy, 0;
      assert LinkedAt(-1);
      pos := head.next;
      while pos != head && x > pos.segment.start
        invariant k <= |nodes| && pos == At(k)
        invariant last == if k == 0 then headCopy else nodes[k - 1]
        invariant forall i :: 0 <= i < k ==> nodes[i].segment.start < x
        decreases |nodes| - k
      {
        assert LinkedAt(k);
        last := pos;
        pos := pos.next;
        k := k + 1;
      }
    }

    /** `list_insert` between two neighbours of the list. */
    method LinkBetween(e: Entry, prev: Entry, next: Entry, ghost k: nat)
      requires Distinct() && Linked() && k <= |nodes| && e !in nodes && e != head
      requires prev == At(k - 1) && next == At(k)
      modifies this`nodes, e`next, e`prev, prev`next, next`prev
      ensures Distinct() && Linked() && nodes == old(nodes)[..k] + [e] + old(nodes)[k..]
    {
      ListInsert(e, prev, next);
      nodes := nodes[..k] + [e] + nodes[k..];
      forall i | -1 <= i < |nodes|
        ensures LinkedAt(i)
      {
        if i < k - 1 {
          assert old(LinkedAt(i));
        } else if i > k {
          assert old(LinkedAt(i - 1));
        }
      }
    }

    /** A new segment in its place, behind all smaller ones and in front of a larger one. */
    method InsertBetween(e: Entry, prev: Entry, next: Entry, ghost k: nat)
      requires Valid() && k <= |nodes| && e !in nodes && e != head
      requires prev == At(k - 1) && next == At(k)
      requires (forall i :: 0 <= i < k ==> nodes[i].segment.start < e.segment.start)
      requires k < |nodes| ==> e.segment.start < nodes[k].segment.start
      modifies this`nodes, e`next, e`prev, prev`next, next`prev
      ensures Valid() && nodes == old(nodes)[..k] + [e] + old(nodes)[k..]
      ensures Segments() == Inserted(old(Segments()), e.segment)
    {
      ghost var s := Segments();
      LinkBetween(e, prev, next, k);
      InsertKeepsOrder(s, e.segment, k);
      InsertedAt(s, e.segment, k);
      assert Segments() == s[..k] + [e.segment] + s[k..];
    }

    /** A new segment linked to the copy of the head: the list does not see it. */
    method InsertLost(e: Entry, headCopy: Entry)
      requires Valid() && nodes != [] && e !in nodes && e != head && headCopy !in nodes && headCopy != head
                 && e != headCopy
      modifies e`next, e`prev, headCopy`next, At(0)`prev
      ensures Distinct() && !Valid()
      ensures head.next == nodes[0] && nodes[0].prev == e
    {
      assert LinkedAt(-1);
      ListInsert(e, headCopy, head.next);
      assert !LinkedAt(-1);
    }

    /** The three ways a new segment is linked in once its place is known. */
    method InsertBefore(e: Entry, headCopy: Entry, last: Entry, pos: Entry, ghost k: nat)
      requires Valid() && k <= |nodes| && e !in nodes && e != head
      requires headCopy !in nodes && headCopy != head && e != headCopy
      requires pos == At(k) && last == if k == 0 then headCopy else nodes[k - 1]
      requires forall i :: 0 <= i < k ==> nodes[i].segment.start < e.segment.start
      requires k < |nodes| ==> e.segment.start < nodes[k].segment.start
      modifies this`nodes, e`next, e`prev, headCopy`next, head, nodes
      ensures Distinct()
      ensures Lost(old(Segments()), e.segment) <==> k == 0 && old(nodes) != []
      ensures !Lost(old(Segments()), e.segment) ==>
                && Valid() && Segments() == Inserted(old(Segments()), e.segment)
                && nodes == old(nodes)[..k] + [e] + old(nodes)[k..]
      ensures Lost(old(Segments()), e.segment) ==>
                && !Valid() && nodes == old(nodes) && head.next == nodes[0] && nodes[0].prev == e
                && forall i :: 0 <= i < |nodes| ==> nodes[i].next == old(nodes[i].next)
    {
      if pos == head {
        assert LinkedAt(|nodes| - 1);
        InsertBetween(e, head.prev, head, k);
      } else if last == headCopy {
        InsertLost(e, headCopy);
      } else {
        InsertBetween(e, last, pos, k);
      }
    }

    /**
     `write_ofo_buffer`.  The scan starts from a copy of the head, so the first
     place in a list that is not empty is the one place a segment cannot be
     inserted: `next` still leads past it, and `prev` into it.
     */
    method Insert(x: Segment) returns (e: Entry)
      requires Valid()
      modifies this`nodes, head, nodes
      ensures fresh(e) && Distinct()
      ensures !Lost(old(Segments()), x) ==> Valid() && Segments() == Inserted(old(Segments()), x)
      ensures !Lost(old(Segments()), x) ==> forall n :: n in nodes ==> n in old(nodes) || n == e
      ensures Lost(old(Segments()), x) ==>
                && nodes == old(nodes) && head.next == nodes[0] && nodes[0].prev == e
                && forall i :: 0 <= i < |nodes| ==> nodes[i].next == old(nodes[i].next)
      ensures Valid() <==> !Lost(old(Segments()), x)
    {
      e := new Entry(x);
      var headCopy := new Entry(head.segment);
      headCopy.next, headCopy.prev := head.next, head.prev;
      var last, pos;
      ghost var k;
      last, pos, k := Seek(x.start, headCopy);
      if pos != head && x.start == pos.segment.start {
        InsertedAt(Segments(), x, k);
        return;
      }
      InsertBefore(e, headCopy, last, pos, k);
    }

    /** `list_delete_entry` of the first node. */
    method DeleteFirst()
      requires Valid() && nodes != []
      modifies this`nodes, head, nodes
      ensures Valid() && nodes == old(nodes)[1..] && Segments() == old(Segments())[1..]
    {
      assert LinkedAt(-1) && LinkedAt(0);
      ghost var s := Segments();
      DeleteEntry(head.next);
      nodes := nodes[1..];
      forall i | -1 <= i < |nodes|
        ensures LinkedAt(i)
      {
        assert old(LinkedAt(i + 1));
      }
      assert Segments() == s[1..];
    }
  }

  lemma InsertKeepsOrder(s: seq<Segment>, x: Segment, k: nat)
    requires Ascending(s) && k <= |s| && (forall i :: 0 <= i < k ==> s[i].start < x.start)
    requires k < |s| ==> x.start < s[k].start
    ensures Ascending(s[..k] + [x] + s[k..])
  {
  }

  /** The segment belongs in front of everything buffered. */
  predicate Lost(s: seq<Segment>, x: Segment) {
    s != [] && x.start < s[0].start
  }

  method DeleteEntry(e: Entry)
    requires e.next != null && e.prev != null
    modifies e.next`prev, e.prev`next
    ensures old(e.next) != e && old(e.prev) != e ==> e.next == old(e.next) && e.prev == old(e.prev)
    ensures old(e.next).prev == old(e.prev) && old(e.prev).next == old(e.next)
  {
    var n, p := e.next, e.prev;
    n.prev := p;
    p.next := n;
  }

  /** After a lost insertion, removing the first segment leaves the head pointing at it. */
  method LostInsertDangles(l: List, x: Segment)
    requires l.Valid() && Lost(l.Segments(), x)
    modifies l`nodes, l.head, l.nodes
    ensures l.head.next == old(l.nodes)[0]
  {
    assert l.LinkedAt(0);
    var e := l.Insert(x);
    DeleteEntry(l.head.next);
  }
}
