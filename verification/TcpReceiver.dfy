/**
 The receiving side: in-order segments go into the ring buffer, later ones are
 kept until the gap before them closes.  Each stretch of work between two
 releases of the lock is one step; a segment that does not fit changes nothing.
 When a thread that waits gets to look again is the subject of `TcpBlocking`.
 */
module TcpReceiver {
  import opened RingBuffer
  import opened OfoList
  import opened TcpConstants

  /** What the protocol thread is doing when it does not hold the lock. */
  datatype Phase =
    | Idle                       // waiting for the next segment
    | Storing(segment: Segment)  // waiting for room for the segment it has accepted
    | Draining(seqEnd: nat)      // moving buffered segments that start at `seqEnd`

  datatype Rcv = Rcv(
    next: nat,             // rcv_nxt
    wnd: int,              // rcv_wnd
    queued: seq<Byte>,     // the ring buffer
    later: seq<Segment>,   // rcv_ofo_buf
    phase: Phase)

  function InitRcv(isn: nat): Rcv {
    Rcv(isn, TCP_DEFAULT_WINDOW, [], [], Idle)
  }

  function Room(r: Rcv): int {
    TCP_DEFAULT_WINDOW - |r.queued|
  }

  /** The first look at a segment; the flag says whether it is acknowledged at once. */
  function Arrive(r: Rcv, x: Segment): (Rcv, bool)
    requires r.phase.Idle?
  {
    if r.next == x.start then (r.(phase := Storing(x)), false)
    else if r.next < x.start then
      (if Lost(r.later, x) then r else r.(later := Inserted(r.later, x)), true)
    else (r, true)
  }

  function Store(r: Rcv, x: Segment, phase: Phase): Rcv {
    r.(queued := r.queued + x.payload, wnd := r.wnd - |x.payload|, phase := phase)
  }

  /** One more stretch of work on an accepted segment; without room nothing happens. */
  function Proceed(r: Rcv): (Rcv, bool)
    requires !r.phase.Idle?
  {
    match r.phase
    case Storing(x) =>
      if Room(r) < |x.payload| then (r, false) else (Store(r, x, Draining(SeqEnd(x))), false)
    case Draining(e) =>
      if r.later == [] || e < r.later[0].start then (r.(next := e, phase := Idle), true)
      else if Room(r) < |r.later[0].payload| then (r, false)
      else (Store(r, r.later[0], Draining(SeqEnd(r.later[0]))).(later := r.later[1..]), false)
  }

  /** `tcp_sock_read` on a buffer that is not empty. */
  function Read(r: Rcv, n: int): (Rcv, seq<Byte>)
    requires r.queued != []
  {
    var len := if |r.queued| < n then |r.queued| else n;
    var taken := if len > 0 then len else 0;
    (r.(queued := r.queued[taken..], wnd := r.wnd + len), r.queued[..taken])
  }

  // ----- The object ------------------------------------------------------

  class Receiver {
    var rcvNxt: nat
    var rcvWnd: int
    const rcvBuf: Ring
    const ofoBuf: List
    var phase: Phase

    ghost predicate Valid()
      reads this, rcvBuf, rcvBuf.buf, ofoBuf, ofoBuf.head, ofoBuf.nodes
    {
      rcvBuf.Valid() && rcvBuf.size == TCP_DEFAULT_WINDOW + 1 && ofoBuf.Valid()
    }

    ghost function State(): Rcv
      requires rcvBuf.Valid()
      reads this, rcvBuf, rcvBuf.buf, ofoBuf
    {
      Rcv(rcvNxt, rcvWnd, rcvBuf.Contents(), ofoBuf.Segments(), phase)
    }

    constructor (isn: nat)
      ensures Valid() && State() == InitRcv(isn)
    {
      rcvNxt, rcvWnd, phase := isn, TCP_DEFAULT_WINDOW, Idle;
      rcvBuf := new Ring(TCP_DEFAULT_WINDOW);
      ofoBuf := new List();
    }

    method ArriveSegment(x: Segment) returns (ack: bool)
      requires Valid() && phase.Idle?
      modifies this`phase, ofoBuf`nodes, ofoBuf.head, ofoBuf.nodes
      ensures rcvBuf.Valid() && (State(), ack) == Arrive(old(State()), x)
      ensures !(old(State()).next < x.start && Lost(old(State()).later, x)) ==> Valid()
    {
      ack := true;
      if rcvNxt == x.start {
        phase := Storing(x);
        ack := false;
      } else if rcvNxt < x.start {
        ghost var s := ofoBuf.Segments();
        var e := ofoBuf.Insert(x);
        if Lost(s, x) {
          assert ofoBuf.Segments() == s;
        }
      }
    }

    /** `write_ring_buffer` asserts that the payload is not empty and fits. */
    method ProceedStore() returns (ack: bool)
      requires Valid() && phase.Storing? && phase.segment.payload != []
      modifies this`rcvWnd, this`phase, rcvBuf`tail, rcvBuf.buf
      ensures Valid() && (State(), ack) == Proceed(old(State()))
    {
      ack := false;
      var x := phase.segment;
      if rcvBuf.Free() >= |x.payload| {
        rcvBuf.Write(x.payload);
        rcvWnd := rcvWnd - |x.payload|;
        phase := Draining(SeqEnd(x));
      }
    }

    method ProceedDrain() returns (ack: bool)
      requires Valid() && phase.Draining?
      requires ofoBuf.Segments() != [] ==> ofoBuf.Segments()[0].payload != []
      modifies this`rcvNxt, this`rcvWnd, this`phase, rcvBuf`tail, rcvBuf.buf, ofoBuf`nodes, ofoBuf.head, ofoBuf.nodes
      ensures Valid() && (State(), ack) == Proceed(old(State()))
    {
      ack := false;
      assert ofoBuf.LinkedAt(-1);
      var first := ofoBuf.head.next;
      if first == ofoBuf.head || phase.seqEnd < first.segment.start {
        rcvNxt := phase.seqEnd;
        phase := Idle;
        ack := true;
      } else if rcvBuf.Free() >= |first.segment.payload| {
        var x := first.segment;
        rcvBuf.Write(x.payload);
        rcvWnd := rcvWnd - |x.payload|;
        ofoBuf.DeleteFirst();
        phase := Draining(SeqEnd(x));
      }
    }

    method ReadBytes(n: int) returns (res: int, out: seq<Byte>)
      requires Valid() && rcvBuf.Contents() != []
      modifies this`rcvWnd, rcvBuf`head
      ensures Valid() && (State(), out) == Read(old(State()), n)
    {
      res, out := rcvBuf.Read(n);
      rcvWnd := rcvWnd + res;
    }
  }
}
