/**
 One direction of a connection: a sender, a receiver, and a network that may
 lose, delay, reorder and duplicate everything that was ever put on it.
 */
module TcpEndToEnd {
  import opened OfoList
  import opened RingBuffer
  import opened TcpConstants
  import opened TcpSender
  import opened TcpReceiver
  import opened TcpSenderSafety
  import opened TcpSenderTiming

  datatype AckMessage = AckMessage(ack: nat, rwnd: nat)

  datatype Sys = Sys(
    snd: Snd,
    rcv: Rcv,
    wire: seq<Segment>,      // every data segment ever put on the wire
    acks: seq<AckMessage>,   // every acknowledgement ever put on the wire
    written: seq<Byte>,      // what the sending application has written
    sent: seq<SendBuffer>,   // the packets made of it, as they were first queued
    got: seq<Byte>)          // what the receiving application has read

  datatype Step =
    | Writes(data: seq<Byte>)
    | Scans
    | DataArrives(k: nat)
    | Proceeds
    | Reads(n: nat)
    | AckArrives(k: nat)

  function InitSys(isn: nat, wnd: nat, adv: nat): Sys {
    Sys(InitSnd(isn, wnd, adv), InitRcv(isn), [], [], [], [], [])
  }

  /**
   In fast recovery with nothing outstanding, an acknowledgement below the
   recovery point reads a packet that is not there.
   */
  predicate ReadsWild(s: Snd, ack: nat) {
    s.state == RCVR && s.queue == [] && ack < s.recovery
  }

  /**
   Two hypotheses restrict the network: no segment is lost by an insertion in
   front of the buffered ones, and no acknowledgement arrives in the state in
   which the sender would read a packet that is not there.
   */
  predicate Enabled(y: Sys, e: Step) {
    match e
    case Writes(data) => data != []
    case Scans => true
    case DataArrives(k) =>
      k < |y.wire| && y.rcv.phase.Idle? && !(y.rcv.next < y.wire[k].start && Lost(y.rcv.later, y.wire[k]))
    case Proceeds => !y.rcv.phase.Idle?
    case Reads(n) => y.rcv.queued != []
    case AckArrives(k) => k < |y.acks| && !ReadsWild(y.snd, y.acks[k].ack)
  }

  /** `tcp_send_control_packet`: the window field has 16 bits. */
  function Acknowledged(y: Sys, step: (Rcv, bool)): Sys {
    var (r, ack) := step;
    y.(rcv := r, acks := if ack then y.acks + [AckMessage(r.next, r.wnd % 0x1_0000)] else y.acks)
  }

  function SysAfter(y: Sys, e: Step): Sys
    requires Enabled(y, e)
  {
    match e
    case Writes(data) =>
      var (s, x) := SendPacket(y.snd, data);
      y.(snd := s, wire := y.wire + [x], written := y.written + data,
         sent := y.sent + [SendBuffer(x, 1, TCP_RETRANS_INTERVAL_INITIAL)])
    case Scans =>
      var (s, out) := Scan(y.snd);
      y.(snd := s, wire := y.wire + out)
    case DataArrives(k) => Acknowledged(y, Arrive(y.rcv, y.wire[k]))
    case Proceeds => Acknowledged(y, Proceed(y.rcv))
    case Reads(n) =>
      var (r, out) := Read(y.rcv, n);
      y.(rcv := r, got := y.got + out)
    case AckArrives(k) =>
      var (s, out) := ProcessAck(y.snd, y.acks[k].ack, y.acks[k].rwnd);
      y.(snd := s, wire := if out.Resend? then y.wire + [out.segment] else y.wire)
  }

  ghost predicate StepAt(run: seq<Sys>, acts: seq<Step>, i: nat)
    requires |run| == |acts| + 1 && i < |acts|
  {
    Enabled(run[i], acts[i]) && run[i + 1] == SysAfter(run[i], acts[i])
  }

  ghost predicate IsRun(run: seq<Sys>, acts: seq<Step>, isn: nat, wnd: nat, adv: nat) {
    && |run| == |acts| + 1 && run[0] == InitSys(isn, wnd, adv)
    && forall i {:trigger StepAt(run, acts, i)} :: 0 <= i < |acts| ==> StepAt(run, acts, i)
  }

  // ----- The invariant -----------------------------------------------------

  ghost predicate IsSent(sent: seq<SendBuffer>, x: Segment) {
    exists i :: 0 <= i < |sent| && sent[i].segment == x
  }

  predicate Slice(isn: nat, written: seq<Byte>, x: Segment) {
    isn <= x.start && SeqEnd(x) <= isn + |written| && x.payload == written[x.start - isn..SeqEnd(x) - isn]
  }

  /** The packets cut the written bytes into consecutive slices. */
  ghost predicate Segmented(isn: nat, written: seq<Byte>, sent: seq<SendBuffer>) {
    Chained(sent, isn, isn + |written|) && AllSlices(isn, written, sent)
  }

  ghost predicate AllSlices(isn: nat, written: seq<Byte>, sent: seq<SendBuffer>) {
    forall i {:trigger Slice(isn, written, sent[i].segment)} :: 0 <= i < |sent| ==> Slice(isn, written, sent[i].segment)
  }

  /** The sender still holds the last packets, with their timers running. */
  ghost predicate Holds(s: Snd, sent: seq<SendBuffer>) {
    && |s.queue| <= |sent|
    && forall j :: 0 <= j < |s.queue| ==> s.queue[j].segment == sent[|sent| - |s.queue| + j].segment
  }

  ghost predicate Aging(b: SendBuffer) {
    exists k: nat :: b == Aged(b.segment, k)
  }

  ghost predicate AllAging(q: seq<SendBuffer>) {
    forall i {:trigger Aging(q[i])} :: 0 <= i < |q| ==> Aging(q[i])
  }

  /** The first byte that has not been put into the ring buffer. */
  function Reached(r: Rcv): nat {
    if r.phase.Draining? then r.phase.seqEnd else r.next
  }

  ghost predicate OnBoundary(isn: nat, sent: seq<SendBuffer>, p: nat) {
    p == isn || exists i :: 0 <= i < |sent| && SeqEnd(sent[i].segment) == p
  }

  ghost predicate LaterOk(r: Rcv, sent: seq<SendBuffer>) {
    && Ascending(r.later)
    && (forall i :: 0 <= i < |r.later| ==> IsSent(sent, r.later[i]))
    && (forall i :: 0 <= i < |r.later| ==>
          if r.phase.Draining? then r.phase.seqEnd <= r.later[i].start else r.next < r.later[i].start)
  }

  ghost predicate RcvInv(isn: nat, written: seq<Byte>, sent: seq<SendBuffer>, r: Rcv, got: seq<Byte>) {
    && isn <= r.next <= Reached(r) <= isn + |written| && OnBoundary(isn, sent, Reached(r))
          && OnBoundary(isn, sent, r.next)
    && got + r.queued == written[..Reached(r) - isn]
    && r.wnd == Room(r) && 0 <= Room(r)
    && (r.phase.Storing? ==> IsSent(sent, r.phase.segment) && r.phase.segment.start == r.next)
    && LaterOk(r, sent)
  }

  ghost predicate SndOk(isn: nat, written: seq<Byte>, sent: seq<SendBuffer>, s: Snd) {
    SndInv(s) && s.nxt == isn + |written| && Holds(s, sent) && AllAging(s.queue)
  }

  ghost predicate WireOk(sent: seq<SendBuffer>, wire: seq<Segment>) {
    forall i {:trigger wire[i]} :: 0 <= i < |wire| ==> IsSent(sent, wire[i])
  }

  ghost predicate AcksOk(acks: seq<AckMessage>, next: nat) {
    forall i :: 0 <= i < |acks| ==> acks[i].ack <= next
  }

  ghost predicate SysInv(isn: nat, y: Sys) {
    && Segmented(isn, y.written, y.sent) && SndOk(isn, y.written, y.sent, y.snd)
    && RcvInv(isn, y.written, y.sent, y.rcv, y.got)
    && WireOk(y.sent, y.wire) && AcksOk(y.acks, y.rcv.next) && isn <= y.snd.una <= y.rcv.next
  }

  // ----- Segments ------------------------------------------------------------

  /** Segments never overlap. */
  lemma SentApart(isn: nat, written: seq<Byte>, sent: seq<SendBuffer>, x: Segment, z: Segment)
    requires Segmented(isn, written, sent) && IsSent(sent, x) && IsSent(sent, z) && x.start < z.start
    ensures SeqEnd(x) <= z.start
  {
    ChainedOrder(sent, isn, isn + |written|);
  }

  lemma SentSlice(isn: nat, written: seq<Byte>, sent: seq<SendBuffer>, x: Segment)
    requires Segmented(isn, written, sent) && IsSent(sent, x)
    ensures Slice(isn, written, x) && x.payload != [] && OnBoundary(isn, sent, SeqEnd(x))
  {
    ChainedOrder(sent, isn, isn + |written|);
    var i :| 0 <= i < |sent| && sent[i].segment == x;
    assert Slice(isn, written, sent[i].segment);
  }

  lemma SliceGrows(isn: nat, written: seq<Byte>, more: seq<Byte>, x: Segment)
    requires Slice(isn, written, x)
    ensures Slice(isn, written + more, x)
  {
    var (i, j) := (x.start - isn, SeqEnd(x) - isn);
    assert (written + more)[i..j] == written[i..j];
  }

  lemma SliceOfLast(isn: nat, written: seq<Byte>, x: Segment)
    requires x.start == isn + |written|
    ensures Slice(isn, written + x.payload, x)
  {
  }

  lemma SlicesGrow(isn: nat, written: seq<Byte>, sent: seq<SendBuffer>, b: SendBuffer)
    requires AllSlices(isn, written, sent) && b.segment.start == isn + |written|
    ensures AllSlices(isn, written + b.segment.payload, sent + [b])
  {
    SliceOfLast(isn, written, b.segment);
    forall i | 0 <= i < |sent|
      ensures Slice(isn, written + b.segment.payload, sent[i].segment)
    {
      SliceGrows(isn, written, b.segment.payload, sent[i].segment);
    }
  }

  lemma WriteSegments(isn: nat, written: seq<Byte>, sent: seq<SendBuffer>, b: SendBuffer)
    requires Segmented(isn, written, sent) && b.segment.start == isn + |written| && b.segment.payload != []
    ensures Segmented(isn, written + b.segment.payload, sent + [b])
  {
    ChainedSnoc(sent, isn, isn + |written|, b);
    SlicesGrow(isn, written, sent, b);
  }

  // ----- The receiver ----------------------------------------------------------

  lemma ArriveKeeps(isn: nat, written: seq<Byte>, sent: seq<SendBuffer>, r: Rcv, got: seq<Byte>, x: Segment)
    requires Segmented(isn, written, sent) && RcvInv(isn, written, sent, r, got) && IsSent(sent, x)
    requires r.phase.Idle? && !(r.next < x.start && Lost(r.later, x))
    ensures RcvInv(isn, written, sent, Arrive(r, x).0, got) && Arrive(r, x).0.next == r.next
  {
    if r.next < x.start {
      InsertedAscending(r.later, x);
      var l := Inserted(r.later, x);
      forall i | 0 <= i < |l|
        ensures IsSent(sent, l[i]) && r.next < l[i].start
      {
        assert l[i] in l;
      }
    }
  }

  lemma SliceExtends(isn: nat, written: seq<Byte>, got: seq<Byte>, queued: seq<Byte>, x: Segment)
    requires Slice(isn, written, x) && got + queued == written[..x.start - isn]
    ensures got + (queued + x.payload) == written[..SeqEnd(x) - isn]
  {
    var (i, j) := (x.start - isn, SeqEnd(x) - isn);
    assert written[..i] + written[i..j] == written[..j];
    assert got + (queued + x.payload) == got + queued + x.payload;
  }

  lemma StoreKeepsLater(isn: nat, written: seq<Byte>, sent: seq<SendBuffer>, r: Rcv, x: Segment)
    requires Segmented(isn, written, sent) && LaterOk(r, sent) && IsSent(sent, x)
    requires forall i :: 0 <= i < |r.later| ==> x.start < r.later[i].start
    ensures LaterOk(Store(r, x, Draining(SeqEnd(x))), sent)
  {
    forall i | 0 <= i < |r.later|
      ensures SeqEnd(x) <= r.later[i].start
    {
      SentApart(isn, written, sent, x, r.later[i]);
    }
  }

  /** One more accepted segment, where everything buffered starts behind it. */
  lemma StoreKeeps(isn: nat, written: seq<Byte>, sent: seq<SendBuffer>, r: Rcv, got: seq<Byte>, x: Segment)
    requires Segmented(isn, written, sent) && RcvInv(isn, written, sent, r, got) && IsSent(sent, x)
    requires x.start == Reached(r) && |x.payload| <= Room(r)
    requires forall i :: 0 <= i < |r.later| ==> x.start < r.later[i].start
    ensures RcvInv(isn, written, sent, Store(r, x, Draining(SeqEnd(x))), got)
  {
    SentSlice(isn, written, sent, x);
    SliceExtends(isn, written, got, r.queued, x);
    StoreKeepsLater(isn, written, sent, r, x);
  }

  lemma DropFirstKeeps(isn: nat, written: seq<Byte>, sent: seq<SendBuffer>, r: Rcv, got: seq<Byte>)
    requires RcvInv(isn, written, sent, r, got) && r.later != [] && r.phase.Draining?
    ensures RcvInv(isn, written, sent, r.(later := r.later[1..]), got) && IsSent(sent, r.later[0])
    ensures r.phase.seqEnd <= r.later[0].start
    ensures forall i :: 0 <= i < |r.later| - 1 ==> r.later[0].start < r.later[1..][i].start
  {
  }

  lemma FinishKeeps(isn: nat, written: seq<Byte>, sent: seq<SendBuffer>, r: Rcv, got: seq<Byte>)
    requires RcvInv(isn, written, sent, r, got) && r.phase.Draining?
    requires r.later == [] || r.phase.seqEnd < r.later[0].start
    ensures RcvInv(isn, written, sent, r.(next := r.phase.seqEnd, phase := Idle), got)
  {
  }

  lemma ProceedKeeps(isn: nat, written: seq<Byte>, sent: seq<SendBuffer>, r: Rcv, got: seq<Byte>)
    requires Segmented(isn, written, sent) && RcvInv(isn, written, sent, r, got) && !r.phase.Idle?
    ensures RcvInv(isn, written, sent, Proceed(r).0, got) && r.next <= Proceed(r).0.next
  {
    if r.phase.Storing? && |r.phase.segment.payload| <= Room(r) {
      StoreKeeps(isn, written, sent, r, got, r.phase.segment);
    } else if r.phase.Draining? {
      if r.later == [] || r.phase.seqEnd < r.later[0].start {
        FinishKeeps(isn, written, sent, r, got);
      } else if |r.later[0].payload| <= Room(r) {
        DropFirstKeeps(isn, written, sent, r, got);
        StoreKeeps(isn, written, sent, r.(later := r.later[1..]), got, r.later[0]);
      }
    }
  }

  lemma ReadKeeps(isn: nat, written: seq<Byte>, sent: seq<SendBuffer>, r: Rcv, got: seq<Byte>, n: nat)
    requires RcvInv(isn, written, sent, r, got) && r.queued != []
    ensures RcvInv(isn, written, sent, Read(r, n).0, got + Read(r, n).1) && Read(r, n).0.next == r.next
  {
    var (t, out) := Read(r, n);
    assert out + t.queued == r.queued;
    assert got + out + t.queued == got + r.queued;
  }

  /** The advertised window is the free space after a read exactly when the length was not negative. */
  lemma WindowIsRoomAfterRead(r: Rcv, n: int)
    requires r.wnd == Room(r) && r.queued != []
    ensures Read(r, n).0.wnd == Room(Read(r, n).0) <==> 0 <= n
  {
  }

  lemma StillOnBoundary(isn: nat, sent: seq<SendBuffer>, b: SendBuffer, p: nat)
    requires OnBoundary(isn, sent, p)
    ensures OnBoundary(isn, sent + [b], p)
  {
    if p != isn {
      var i :| 0 <= i < |sent| && SeqEnd(sent[i].segment) == p;
      assert (sent + [b])[i] == sent[i];
    }
  }

  lemma MoreSent(isn: nat, written: seq<Byte>, sent: seq<SendBuffer>, r: Rcv, got: seq<Byte>, b: SendBuffer)
    requires RcvInv(isn, written, sent, r, got)
    ensures RcvInv(isn, written + b.segment.payload, sent + [b], r, got)
  {
    var w := written + b.segment.payload;
    assert w[..Reached(r) - isn] == written[..Reached(r) - isn];
    StillOnBoundary(isn, sent, b, Reached(r));
    StillOnBoundary(isn, sent, b, r.next);
    forall x | IsSent(sent, x)
      ensures IsSent(sent + [b], x)
    {
      MoreIsSent(sent, b, x);
    }
  }

  lemma MoreIsSent(sent: seq<SendBuffer>, b: SendBuffer, x: Segment)
    requires IsSent(sent, x)
    ensures IsSent(sent + [b], x)
  {
    var i :| 0 <= i < |sent| && sent[i].segment == x;
    assert (sent + [b])[i].segment == x;
  }

  // ----- The sender ------------------------------------------------------------

  lemma HeldIsSent(s: Snd, sent: seq<SendBuffer>, i: nat)
    requires Holds(s, sent) && i < |s.queue|
    ensures IsSent(sent, s.queue[i].segment)
  {
    assert s.queue[i].segment == sent[|sent| - |s.queue| + i].segment;
  }

  lemma SuffixHolds(s: Snd, t: Snd, sent: seq<SendBuffer>, n: nat)
    requires Holds(s, sent) && AllAging(s.queue) && n <= |s.queue| && t.queue == s.queue[n..]
    ensures Holds(t, sent) && AllAging(t.queue)
  {
    forall i | 0 <= i < |t.queue|
      ensures Aging(t.queue[i]) && t.queue[i].segment == sent[|sent| - |t.queue| + i].segment
    {
      assert t.queue[i] == s.queue[n + i] && Aging(s.queue[n + i]);
    }
  }

  lemma AckHolds(s: Snd, ack: nat, rwnd: nat, sent: seq<SendBuffer>)
    requires SndInv(s) && Holds(s, sent) && AllAging(s.queue)
    ensures var t := ProcessAck(s, ack, rwnd).0; Holds(t, sent) && AllAging(t.queue) && t.nxt == s.nxt
  {
    if ack != s.una {
      var n := NewAckShape(s, ack, rwnd);
      SuffixHolds(s, ProcessAck(s, ack, rwnd).0, sent, n);
    } else {
      SuffixHolds(s, ProcessAck(s, ack, rwnd).0, sent, 0);
    }
  }

  lemma AckMovesUna(s: Snd, ack: nat, rwnd: nat)
    requires SndInv(s)
    ensures var t := ProcessAck(s, ack, rwnd).0; s.una <= t.una && (t.una == s.una || t.una <= ack)
  {
    if ack != s.una {
      ChainedOrder(s.queue, s.una, s.nxt);
      var n := NewAckShape(s, ack, rwnd);
    }
  }

  /** Only the first queued packet is ever sent again by an acknowledgement. */
  lemma AckResendsFirst(s: Snd, ack: nat, rwnd: nat)
    ensures var (t, out) := ProcessAck(s, ack, rwnd); out.Resend? ==> t.queue != [] && out.segment == t.queue[0].segment
  {
  }

  lemma ScanHolds(s: Snd, sent: seq<SendBuffer>)
    requires Holds(s, sent) && AllAging(s.queue)
    ensures var t := Scan(s).0; Holds(t, sent) && AllAging(t.queue) && t.nxt == s.nxt && t.una == s.una
    ensures forall x :: x in Scan(s).1 ==> IsSent(sent, x)
  {
    ScanFromTicks(s, 0);
    var t := Scan(s).0;
    forall i | 0 <= i < |t.queue|
      ensures Aging(t.queue[i])
    {
      assert Aging(s.queue[i]);
      var k: nat :| s.queue[i] == Aged(s.queue[i].segment, k);
      TickAged(s.queue[i].segment, k);
      assert t.queue[i] == Aged(t.queue[i].segment, k + 1);
    }
    forall x | x in Scan(s).1
      ensures IsSent(sent, x)
    {
      ResendsAre(s.queue, x);
      var i :| 0 <= i < |s.queue| && s.queue[i].segment == x && Tick(s.queue[i]).2;
      HeldIsSent(s, sent, i);
    }
  }

  lemma WriteHolds(s: Snd, sent: seq<SendBuffer>, data: seq<Byte>)
    requires Holds(s, sent) && AllAging(s.queue)
    ensures var (t, x) := SendPacket(s, data);
            Holds(t, sent + [SendBuffer(x, 1, TCP_RETRANS_INTERVAL_INITIAL)]) && AllAging(t.queue)
  {
    var (t, x) := SendPacket(s, data);
    forall i | 0 <= i < |t.queue|
      ensures Aging(t.queue[i])
    {
      if i < |s.queue| {
        assert Aging(s.queue[i]);
      } else {
        assert t.queue[i] == Aged(x, 0);
      }
    }
  }

  // ----- Every step keeps the invariant -----------------------------------------

  lemma WireGrows(sent: seq<SendBuffer>, wire: seq<Segment>, out: seq<Segment>)
    requires WireOk(sent, wire) && forall x :: x in out ==> IsSent(sent, x)
    ensures WireOk(sent, wire + out)
  {
  }

  lemma WireStays(sent: seq<SendBuffer>, b: SendBuffer, wire: seq<Segment>)
    requires WireOk(sent, wire)
    ensures WireOk(sent + [b], wire + [b.segment])
  {
    assert (sent + [b])[|sent|].segment == b.segment;
    forall i | 0 <= i < |wire|
      ensures IsSent(sent + [b], wire[i])
    {
      MoreIsSent(sent, b, wire[i]);
    }
  }

  lemma WriteSnd(isn: nat, written: seq<Byte>, sent: seq<SendBuffer>, s: Snd, data: seq<Byte>)
    requires SndOk(isn, written, sent, s) && data != []
    ensures var (t, x) := SendPacket(s, data);
            SndOk(isn, written + data, sent + [SendBuffer(x, 1, TCP_RETRANS_INTERVAL_INITIAL)], t) && t.una == s.una
  {
    StepKeeps(s, Data(data));
    WriteHolds(s, sent, data);
  }

  lemma WritesKeeps(isn: nat, y: Sys, data: seq<Byte>)
    requires SysInv(isn, y) && data != []
    ensures SysInv(isn, SysAfter(y, Writes(data)))
  {
    var b := SendBuffer(Segment(y.snd.nxt, data), 1, TCP_RETRANS_INTERVAL_INITIAL);
    WriteSegments(isn, y.written, y.sent, b);
    MoreSent(isn, y.written, y.sent, y.rcv, y.got, b);
    WriteSnd(isn, y.written, y.sent, y.snd, data);
    WireStays(y.sent, b, y.wire);
  }

  lemma ScanSnd(isn: nat, written: seq<Byte>, sent: seq<SendBuffer>, s: Snd)
    requires SndOk(isn, written, sent, s)
    ensures SndOk(isn, written, sent, Scan(s).0) && Scan(s).0.una == s.una
    ensures forall x :: x in Scan(s).1 ==> IsSent(sent, x)
  {
    ScanKeeps(s);
    ScanHolds(s, sent);
  }

  lemma ScansKeeps(isn: nat, y: Sys)
    requires SysInv(isn, y)
    ensures SysInv(isn, SysAfter(y, Scans))
  {
    ScanSnd(isn, y.written, y.sent, y.snd);
    WireGrows(y.sent, y.wire, Scan(y.snd).1);
  }

  lemma AckSnd(isn: nat, written: seq<Byte>, sent: seq<SendBuffer>, s: Snd, ack: nat, rwnd: nat)
    requires SndOk(isn, written, sent, s)
    ensures var (t, out) := ProcessAck(s, ack, rwnd);
            && SndOk(isn, written, sent, t) && s.una <= t.una && (t.una == s.una || t.una <= ack)
            && (out.Resend? ==> IsSent(sent, out.segment))
  {
    var (t, out) := ProcessAck(s, ack, rwnd);
    AckKeeps(s, ack, rwnd);
    AckHolds(s, ack, rwnd, sent);
    AckMovesUna(s, ack, rwnd);
    AckResendsFirst(s, ack, rwnd);
    if out.Resend? {
      HeldIsSent(t, sent, 0);
    }
  }

  lemma AckArrivesKeeps(isn: nat, y: Sys, k: nat)
    requires SysInv(isn, y) && Enabled(y, AckArrives(k))
    ensures SysInv(isn, SysAfter(y, AckArrives(k)))
  {
    var out := ProcessAck(y.snd, y.acks[k].ack, y.acks[k].rwnd).1;
    AckSnd(isn, y.written, y.sent, y.snd, y.acks[k].ack, y.acks[k].rwnd);
    if out.Resend? {
      WireGrows(y.sent, y.wire, [out.segment]);
    }
  }

  lemma AcknowledgedKeeps(isn: nat, y: Sys, step: (Rcv, bool))
    requires SysInv(isn, y) && RcvInv(isn, y.written, y.sent, step.0, y.got) && y.rcv.next <= step.0.next
    ensures SysInv(isn, Acknowledged(y, step))
  {
  }

  lemma DataArrivesKeeps(isn: nat, y: Sys, k: nat)
    requires SysInv(isn, y) && Enabled(y, DataArrives(k))
    ensures SysInv(isn, SysAfter(y, DataArrives(k)))
  {
    ArriveKeeps(isn, y.written, y.sent, y.rcv, y.got, y.wire[k]);
    AcknowledgedKeeps(isn, y, Arrive(y.rcv, y.wire[k]));
  }

  lemma ProceedsKeeps(isn: nat, y: Sys)
    requires SysInv(isn, y) && Enabled(y, Proceeds)
    ensures SysInv(isn, SysAfter(y, Proceeds))
  {
    ProceedKeeps(isn, y.written, y.sent, y.rcv, y.got);
    AcknowledgedKeeps(isn, y, Proceed(y.rcv));
  }

  lemma StepKeepsSys(isn: nat, y: Sys, e: Step)
    requires SysInv(isn, y) && Enabled(y, e)
    ensures SysInv(isn, SysAfter(y, e))
  {
    match e
    case Writes(data) => WritesKeeps(isn, y, data);
    case Scans => ScansKeeps(isn, y);
    case DataArrives(k) => DataArrivesKeeps(isn, y, k);
    case Proceeds => ProceedsKeeps(isn, y);
    case Reads(n) => ReadKeeps(isn, y.written, y.sent, y.rcv, y.got, n);
    case AckArrives(k) => AckArrivesKeeps(isn, y, k);
  }

  /** `z` has everything `y` has. */
  ghost predicate Grows(y: Sys, z: Sys) {
    && y.got <= z.got && y.rcv.next <= z.rcv.next && y.written <= z.written && y.sent <= z.sent
    && y.snd.una <= z.snd.una && y.snd.nxt <= z.snd.nxt
  }

  lemma StepGrows(isn: nat, y: Sys, e: Step)
    requires SysInv(isn, y) && Enabled(y, e)
    ensures Grows(y, SysAfter(y, e))
  {
    match e
    case AckArrives(k) =>
      AckMovesUna(y.snd, y.acks[k].ack, y.acks[k].rwnd);
      AckHolds(y.snd, y.acks[k].ack, y.acks[k].rwnd, y.sent);
    case Scans => ScanFromTicks(y.snd, 0);
    case _ =>
  }

  lemma RunStep(run: seq<Sys>, acts: seq<Step>, isn: nat, wnd: nat, adv: nat, i: nat)
    requires IsRun(run, acts, isn, wnd, adv) && i + 1 < |run| && SysInv(isn, run[i])
    ensures SysInv(isn, run[i + 1]) && Grows(run[i], run[i + 1])
  {
    assert StepAt(run, acts, i);
    StepKeepsSys(isn, run[i], acts[i]);
    StepGrows(isn, run[i], acts[i]);
  }

  lemma {:induction false} RunSysInv(run: seq<Sys>, acts: seq<Step>, isn: nat, wnd: nat, adv: nat, i: nat)
    requires IsRun(run, acts, isn, wnd, adv) && i < |run|
    ensures SysInv(isn, run[i])
  {
    if i > 0 {
      RunSysInv(run, acts, isn, wnd, adv, i - 1);
      RunStep(run, acts, isn, wnd, adv, i - 1);
    }
  }

  // ----- What the applications can rely on ----------------------------------------

  /**
   The bytes read followed by the bytes queued are exactly the first bytes
   written, up to `rcv_nxt` whenever the receiver is idle.
   */
  lemma DeliversExactlyWhatWasWritten(run: seq<Sys>, acts: seq<Step>, isn: nat, wnd: nat, adv: nat, i: nat)
    requires IsRun(run, acts, isn, wnd, adv) && i < |run|
    ensures var y := run[i];
            && isn <= Reached(y.rcv) <= isn + |y.written|
            && y.got + y.rcv.queued == y.written[..Reached(y.rcv) - isn]
            && (y.rcv.phase.Idle? ==> |y.got| + |y.rcv.queued| == y.rcv.next - isn)
  {
    RunSysInv(run, acts, isn, wnd, adv, i);
  }

  /**
   The advertised window is the free space, and whatever is written into the
   ring buffer next is not empty: with the room the receiver waits for, the
   assertion of `write_ring_buffer` holds.
   */
  lemma WindowIsFreeSpace(run: seq<Sys>, acts: seq<Step>, isn: nat, wnd: nat, adv: nat, i: nat)
    requires IsRun(run, acts, isn, wnd, adv) && i < |run|
    ensures var r := run[i].rcv;
            && 0 <= r.wnd == TCP_DEFAULT_WINDOW - |r.queued|
            && (r.phase.Storing? ==> r.phase.segment.payload != [])
            && forall j :: 0 <= j < |r.later| ==> r.later[j].payload != []
  {
    RunSysInv(run, acts, isn, wnd, adv, i);
    var y := run[i];
    forall x | IsSent(y.sent, x)
      ensures x.payload != []
    {
      SentSlice(isn, y.written, y.sent, x);
    }
  }

  /** What has not been accepted is still in the send queue, byte for byte. */
  lemma UnacceptedIsQueued(run: seq<Sys>, acts: seq<Step>, isn: nat, wnd: nat, adv: nat, i: nat, x: Segment)
    requires IsRun(run, acts, isn, wnd, adv) && i < |run| && IsSent(run[i].sent, x)
    ensures run[i].rcv.next < SeqEnd(x) ==> exists b :: b in run[i].snd.queue && b.segment == x
  {
    RunSysInv(run, acts, isn, wnd, adv, i);
    var y := run[i];
    if y.rcv.next < SeqEnd(x) {
      var j :| 0 <= j < |y.sent| && y.sent[j].segment == x;
      QueuedAbove(isn, y, j);
    }
  }

  /** Packets no longer queued end at or below `una`. */
  lemma PoppedBelow(isn: nat, y: Sys, j: nat)
    requires SysInv(isn, y) && j < |y.sent| - |y.snd.queue|
    ensures SeqEnd(y.sent[j].segment) <= y.snd.una
  {
    ChainedOrder(y.sent, isn, isn + |y.written|);
    if y.snd.queue != [] {
      assert y.snd.queue[0].segment == y.sent[|y.sent| - |y.snd.queue|].segment;
    }
  }

  lemma QueuedAbove(isn: nat, y: Sys, j: nat)
    requires SysInv(isn, y) && j < |y.sent| && y.snd.una < SeqEnd(y.sent[j].segment)
    ensures |y.sent| - |y.snd.queue| <= j && y.snd.queue[j - (|y.sent| - |y.snd.queue|)].segment == y.sent[j].segment
  {
    if j < |y.sent| - |y.snd.queue| {
      PoppedBelow(isn, y, j);
    }
  }

  /** The packet that starts at a boundary below the end. */
  lemma {:induction false} PacketAt(sent: seq<SendBuffer>, una: nat, nxt: nat, p: nat) returns (j: nat)
    requires Chained(sent, una, nxt) && OnBoundary(una, sent, p) && p < nxt
    ensures j < |sent| && sent[j].segment.start == p
  {
    ChainedOrder(sent, una, nxt);
    if p == una {
      j := 0;
    } else {
      var i :| 0 <= i < |sent| && SeqEnd(sent[i].segment) == p;
      var e := SeqEnd(sent[0].segment);
      assert p == e || sent[1..][i - 1] == sent[i];
      j := PacketAt(sent[1..], e, nxt, p);
      j := j + 1;
    }
  }

  /** What was read stays a prefix of what is read later, and acknowledgements never fall back. */
  lemma {:induction false} NothingIsTakenBack(run: seq<Sys>, acts: seq<Step>, isn: nat, wnd: nat, adv: nat, i: nat,
                                              j: nat)
    requires IsRun(run, acts, isn, wnd, adv) && i <= j < |run|
    ensures Grows(run[i], run[j]) && run[j].snd.una <= run[j].rcv.next
    decreases j - i
  {
    RunSysInv(run, acts, isn, wnd, adv, j);
    if i < j {
      NothingIsTakenBack(run, acts, isn, wnd, adv, i, j - 1);
      RunSysInv(run, acts, isn, wnd, adv, j - 1);
      RunStep(run, acts, isn, wnd, adv, j - 1);
    }
  }

  // ----- What is missing is sent again -------------------------------------------

  /** Nothing but its own events changes the sender. */
  lemma SenderSteps(isn: nat, y: Sys, e: Step) returns (es: seq<Event>)
    requires SysInv(isn, y) && Enabled(y, e)
    ensures AllSensible(es) && SysAfter(y, e).snd == AfterAll(y.snd, es) && |es| <= 1
    ensures ScanCount(es) == if e.Scans? then 1 else 0
  {
    es := match e
      case Writes(data) => [Data(data)]
      case Scans => [TimerScan]
      case AckArrives(k) => [Ack(y.acks[k].ack, y.acks[k].rwnd)]
      case _ => [];
    if es != [] {
      assert es[1..] == [];
      assert AfterAll(y.snd, es) == After(y.snd, es[0]);
    }
  }

  function ScanSteps(acts: seq<Step>, i: nat, j: nat): nat
    requires i <= j <= |acts|
    decreases j
  {
    if i == j then 0 else ScanSteps(acts, i, j - 1) + if acts[j - 1].Scans? then 1 else 0
  }

  lemma StepAges(isn: nat, y: Sys, e: Step, x: Segment, k: nat)
    requires SysInv(isn, y) && Enabled(y, e) && x.start < y.snd.nxt && Looks(y.snd, x, k)
    ensures Looks(SysAfter(y, e).snd, x, k + if e.Scans? then 1 else 0) && x.start < SysAfter(y, e).snd.nxt
  {
    var es := SenderSteps(isn, y, e);
    RunLooks(y.snd, es, x, k);
    RunKeeps(y.snd, es);
  }

  /** Through any steps a queued packet ages with the timer scans. */
  lemma {:induction false} AgesAlong(run: seq<Sys>, acts: seq<Step>, isn: nat, wnd: nat, adv: nat, i: nat, j: nat,
                                     x: Segment, k: nat)
    requires IsRun(run, acts, isn, wnd, adv) && i <= j <= |acts| && x.start < run[i].snd.nxt && Looks(run[i].snd, x, k)
    ensures Looks(run[j].snd, x, k + ScanSteps(acts, i, j)) && x.start < run[j].snd.nxt
    decreases j
  {
    if i < j {
      var m := j - 1;
      AgesAlong(run, acts, isn, wnd, adv, i, m, x, k);
      RunSysInv(run, acts, isn, wnd, adv, m);
      assert StepAt(run, acts, m);
      StepAges(isn, run[m], acts[m], x, k + ScanSteps(acts, i, m));
    }
  }

  /** The scan of a run that brings the count to a given number. */
  lemma {:induction false} CountedScan(acts: seq<Step>, i: nat, j: nat, n: nat) returns (m: nat)
    requires i <= j <= |acts| && 1 <= n <= ScanSteps(acts, i, j)
    ensures i <= m < j && acts[m].Scans? && ScanSteps(acts, i, m) == n - 1
    decreases j
  {
    if acts[j - 1].Scans? && ScanSteps(acts, i, j) == n {
      m := j - 1;
    } else {
      m := CountedScan(acts, i, j - 1, n);
    }
  }

  /** The packet the receiver waits for is queued. */
  lemma MissingPacketQueued(isn: nat, y: Sys) returns (m: nat)
    requires SysInv(isn, y) && y.rcv.next < y.snd.nxt
    ensures m < |y.snd.queue| && y.snd.queue[m].segment.start == y.rcv.next
  {
    var j := PacketAt(y.sent, isn, isn + |y.written|, y.rcv.next);
    ChainedOrder(y.sent, isn, isn + |y.written|);
    QueuedAbove(isn, y, j);
    m := j - (|y.sent| - |y.snd.queue|);
  }

  lemma QueuedLooks(s: Snd, i: nat) returns (k: nat)
    requires SndInv(s) && AllAging(s.queue) && i < |s.queue|
    ensures Looks(s, s.queue[i].segment, k) && s.queue[i].segment.start < s.nxt
  {
    assert Aging(s.queue[i]);
    k :| s.queue[i] == Aged(s.queue[i].segment, k);
    ChainedOrder(s.queue, s.una, s.nxt);
  }

  lemma MissingPacketAges(isn: nat, y: Sys) returns (m: nat, k: nat)
    requires SysInv(isn, y) && y.rcv.next < y.snd.nxt
    ensures m < |y.snd.queue|
    ensures var x := y.snd.queue[m].segment;
            && x.start == y.rcv.next < y.snd.nxt && x.payload != [] && IsSent(y.sent, x) && Looks(y.snd, x, k)
  {
    m := MissingPacketQueued(isn, y);
    HeldIsSent(y.snd, y.sent, m);
    SentSlice(isn, y.written, y.sent, y.snd.queue[m].segment);
    k := QueuedLooks(y.snd, m);
  }

  /** A queued packet is sent again by the scan its age asks for. */
  lemma ScanResends(s: Snd, i: nat, k: nat)
    requires i < |s.queue| && Looks(s, s.queue[i].segment, k) && ResentAt(k + 1)
    ensures s.queue[i].segment in Scan(s).1
  {
    TickAged(s.queue[i].segment, k);
    ResendsAre(s.queue, s.queue[i].segment);
  }

  lemma SamePacket(isn: nat, y: Sys, z: Sys, i: nat, j: nat)
    requires SysInv(isn, y) && SysInv(isn, z) && y.sent <= z.sent && i < |y.snd.queue| && j < |z.snd.queue|
    requires y.snd.queue[i].segment.start == z.snd.queue[j].segment.start
    ensures y.snd.queue[i].segment == z.snd.queue[j].segment
  {
    HeldIsSent(y.snd, y.sent, i);
    HeldIsSent(z.snd, z.sent, j);
    var a :| 0 <= a < |y.sent| && y.sent[a].segment == y.snd.queue[i].segment;
    var b :| 0 <= b < |z.sent| && z.sent[b].segment == z.snd.queue[j].segment;
    ChainedOrder(z.sent, isn, isn + |z.written|);
    assert z.sent[a] == y.sent[a];
  }

  /** A packet still missing later is the same packet, and its age decides. */
  lemma StillMissing(isn: nat, y: Sys, z: Sys, a: nat, k: nat)
    requires SysInv(isn, y) && SysInv(isn, z) && y.sent <= z.sent && a < |y.snd.queue|
    requires y.snd.queue[a].segment.start == y.rcv.next == z.rcv.next < z.snd.nxt
    requires Looks(z.snd, y.snd.queue[a].segment, k) && ResentAt(k + 1)
    ensures y.snd.queue[a].segment in Scan(z.snd).1
  {
    var b := MissingPacketQueued(isn, z);
    SamePacket(isn, y, z, a, b);
    ScanResends(z.snd, b, k);
  }

  /** Between two states with the same `rcv_nxt` it has not moved. */
  lemma StillBehind(run: seq<Sys>, acts: seq<Step>, isn: nat, wnd: nat, adv: nat, i: nat, m: nat, j: nat)
    requires IsRun(run, acts, isn, wnd, adv) && i <= m <= j <= |acts| && run[j].rcv.next == run[i].rcv.next
    ensures SysInv(isn, run[m]) && run[m].rcv.next == run[i].rcv.next && run[i].sent <= run[m].sent
    ensures run[i].snd.nxt <= run[m].snd.nxt
  {
    NothingIsTakenBack(run, acts, isn, wnd, adv, i, m);
    NothingIsTakenBack(run, acts, isn, wnd, adv, m, j);
    RunSysInv(run, acts, isn, wnd, adv, m);
  }

  /**
   As long as a receiver that is behind does not move, the packet it waits for
   is sent again within any 100 timer scans, whatever is written, acknowledged,
   delivered and read in between.  If the receiver is idle when the packet
   comes, it accepts it.
   */
  lemma MissingPacketComesAgain(run: seq<Sys>, acts: seq<Step>, isn: nat, wnd: nat, adv: nat, i: nat, j: nat)
    returns (x: Segment, m: nat)
    requires IsRun(run, acts, isn, wnd, adv) && i <= j <= |acts| && ScanSteps(acts, i, j) >= 100
    requires run[i].rcv.next < run[i].snd.nxt && run[j].rcv.next == run[i].rcv.next
    ensures x.start == run[i].rcv.next && x.payload != [] && IsSent(run[i].sent, x)
    ensures i <= m < j && acts[m].Scans? && x in Scan(run[m].snd).1
    ensures run[m + 1].wire == run[m].wire + Scan(run[m].snd).1
    ensures run[m].rcv.phase.Idle? ==> Arrive(run[m].rcv, x).0.phase == Storing(x)
  {
    RunSysInv(run, acts, isn, wnd, adv, i);
    var a, k := MissingPacketAges(isn, run[i]);
    x := run[i].snd.queue[a].segment;
    var n := ResentWithin100(k);
    m := CountedScan(acts, i, j, n - k);
    StillBehind(run, acts, isn, wnd, adv, i, m, j);
    AgesAlong(run, acts, isn, wnd, adv, i, m, x, k);
    StillMissing(isn, run[i], run[m], a, n - 1);
    assert StepAt(run, acts, m);
  }

  // ----- The read behind an empty queue ---------------------------------------------

  lemma ExtendRun(run: seq<Sys>, acts: seq<Step>, isn: nat, wnd: nat, adv: nat, e: Step)
    requires IsRun(run, acts, isn, wnd, adv) && Enabled(run[|acts|], e)
    ensures IsRun(run + [SysAfter(run[|acts|], e)], acts + [e], isn, wnd, adv)
  {
    var (r, a) := (run + [SysAfter(run[|acts|], e)], acts + [e]);
    forall i | 0 <= i < |a|
      ensures StepAt(r, a, i)
    {
      if i < |acts| {
        assert StepAt(run, acts, i);
      }
    }
  }

  /** Two packets of one byte each are sent. */
  lemma TwoWritten(isn: nat, wnd: nat, adv: nat) returns (run: seq<Sys>, acts: seq<Step>)
    ensures IsRun(run, acts, isn, wnd, adv)
    ensures var y := run[|acts|];
            && y.snd.una == isn && y.snd.nxt == isn + 2 && y.snd.state == OPEN && y.snd.repAck == 0
            && |y.snd.queue| == 2 && y.snd.queue[0].segment == Segment(isn, [1])
            && y.snd.queue[1].segment == Segment(isn + 1, [2])
            && y.wire == [Segment(isn, [1]), Segment(isn + 1, [2])] && y.acks == [] && y.rcv == InitRcv(isn)
  {
    var y0 := InitSys(isn, wnd, adv);
    var y1 := SysAfter(y0, Writes([1]));
    var y2 := SysAfter(y1, Writes([2]));
    ExtendRun([y0], [], isn, wnd, adv, Writes([1]));
    assert [y0] + [y1] == [y0, y1];
    ExtendRun([y0, y1], [Writes([1])], isn, wnd, adv, Writes([2]));
    run, acts := [y0, y1] + [y2], [Writes([1])] + [Writes([2])];
  }

  /** Two packets arrive in the wrong order and are acknowledged. */
  lemma ReorderedPair(isn: nat, wnd: nat, adv: nat) returns (run: seq<Sys>, acts: seq<Step>)
    ensures IsRun(run, acts, isn, wnd, adv)
    ensures var y := run[|acts|];
            && y.snd.una == isn && y.snd.nxt == isn + 2 && y.snd.state == OPEN && y.snd.repAck == 0
            && |y.snd.queue| == 2 && SeqEnd(y.snd.queue[0].segment) == isn + 1
                  && SeqEnd(y.snd.queue[1].segment) == isn + 2
            && |y.acks| == 2 && y.acks[0].ack == isn && y.acks[1].ack == isn + 2
  {
    run, acts := TwoWritten(isn, wnd, adv);
    var y2 := run[|acts|];
    var y3 := SysAfter(y2, DataArrives(1));
    ExtendRun(run, acts, isn, wnd, adv, DataArrives(1));
    run, acts := run + [y3], acts + [DataArrives(1)];
    var y4 := SysAfter(y3, DataArrives(0));
    ExtendRun(run, acts, isn, wnd, adv, DataArrives(0));
    run, acts := run + [y4], acts + [DataArrives(0)];
    run, acts := Accepts(run, acts, isn, wnd, adv);
  }

  /** Storing the first packet, draining the second, finishing. */
  lemma Accepts(run: seq<Sys>, acts: seq<Step>, isn: nat, wnd: nat, adv: nat) returns (run': seq<Sys>, acts': seq<Step>)
    requires IsRun(run, acts, isn, wnd, adv)
    requires var r := run[|acts|].rcv;
             r.phase == Storing(Segment(isn, [1])) && r.later == [Segment(isn + 1, [2])] && r.queued == []
    ensures IsRun(run', acts', isn, wnd, adv) && run'[|acts'|].snd == run[|acts|].snd
    ensures |run'[|acts'|].acks| == |run[|acts|].acks| + 1
              && run'[|acts'|].acks[..|run[|acts|].acks|] == run[|acts|].acks
    ensures run'[|acts'|].acks[|run[|acts|].acks|].ack == isn + 2
  {
    var y0 := run[|acts|];
    var y1 := SysAfter(y0, Proceeds);
    var y2 := SysAfter(y1, Proceeds);
    var y3 := SysAfter(y2, Proceeds);
    ExtendRun(run, acts, isn, wnd, adv, Proceeds);
    ExtendRun(run + [y1], acts + [Proceeds], isn, wnd, adv, Proceeds);
    ExtendRun(run + [y1] + [y2], acts + [Proceeds] + [Proceeds], isn, wnd, adv, Proceeds);
    run', acts' := run + [y1] + [y2] + [y3], acts + [Proceeds] + [Proceeds] + [Proceeds];
  }

  /** Acknowledgement `k` arrives once more. */
  lemma AckAgain(run: seq<Sys>, acts: seq<Step>, isn: nat, wnd: nat, adv: nat, k: nat)
    returns (run': seq<Sys>, acts': seq<Step>)
    requires IsRun(run, acts, isn, wnd, adv) && Enabled(run[|acts|], AckArrives(k))
    ensures IsRun(run', acts', isn, wnd, adv)
    ensures run'[|acts'|].snd == ProcessAck(run[|acts|].snd, run[|acts|].acks[k].ack, run[|acts|].acks[k].rwnd).0
    ensures run'[|acts'|].acks == run[|acts|].acks
  {
    ExtendRun(run, acts, isn, wnd, adv, AckArrives(k));
    run', acts' := run + [SysAfter(run[|acts|], AckArrives(k))], acts + [AckArrives(k)];
  }

  lemma BothPopped(s: Snd, ack: nat, rwnd: nat)
    requires |s.queue| == 2 && SeqEnd(s.queue[0].segment) <= ack && SeqEnd(s.queue[1].segment) == ack
    requires s.state == OPEN && ack != s.una
    ensures var t := ProcessAck(s, ack, rwnd).0;
            t.queue == [] && t.una == ack && t.state == OPEN && t.repAck == 0 && t.nxt == s.nxt
  {
    var s1 := PopFirst(s.(repAck := 0));
    var s2 := PopFirst(s1);
    assert s1.queue == [s.queue[1]] && s2.queue == [];
    assert PopAcked(s2, ack) == s2 && PopAcked(s1, ack) == s2;
  }

  /**
   The acknowledgements of an honest receiver, one of them repeated by the
   network and one of them late, reach the state in which the sender reads a
   packet that is not there.
   */
  lemma HonestRunReadsWild(isn: nat, wnd: nat, adv: nat) returns (run: seq<Sys>, acts: seq<Step>)
    ensures IsRun(run, acts, isn, wnd, adv)
    ensures var y := run[|acts|];
            && |y.acks| == 2 && ReadsWild(y.snd, y.acks[0].ack)
            && ProcessAck(y.snd, y.acks[0].ack, y.acks[0].rwnd).1 == Wild
  {
    run, acts := ReorderedPair(isn, wnd, adv);
    BothPopped(run[|acts|].snd, isn + 2, run[|acts|].acks[1].rwnd);
    run, acts := AckAgain(run, acts, isn, wnd, adv, 1);
    run, acts := AckAgain(run, acts, isn, wnd, adv, 1);
    run, acts := AckAgain(run, acts, isn, wnd, adv, 1);
    run, acts := AckAgain(run, acts, isn, wnd, adv, 1);
    RunSysInv(run, acts, isn, wnd, adv, |acts|);
    WildExactlyWhenEmpty(run[|acts|].snd, run[|acts|].acks[0].ack, run[|acts|].acks[0].rwnd);
  }

  /** Fast recovery entered with a packet outstanding holds on to its last packet, whatever happens in the system. */
  lemma {:induction false} RecoveryHoldsPacket(run: seq<Sys>, acts: seq<Step>, isn: nat, wnd: nat, adv: nat, i: nat,
                                               j: nat)
    requires IsRun(run, acts, isn, wnd, adv) && i < j <= |acts|
    requires run[i].snd.state == OPEN && run[i].snd.queue != [] && forall m :: i < m <= j ==> run[m].snd.state == RCVR
    ensures HoldsRecovery(run[j].snd)
    decreases j
  {
    var m := j - 1;
    RunSysInv(run, acts, isn, wnd, adv, m);
    assert StepAt(run, acts, m);
    assert run[j] == SysAfter(run[m], acts[m]);
    if m == i {
      EntersHolding(isn, run[m], acts[m]);
    } else {
      RecoveryHoldsPacket(run, acts, isn, wnd, adv, i, m);
      KeepsHolding(isn, run[m], acts[m]);
    }
  }

  lemma EntersHolding(isn: nat, y: Sys, e: Step)
    requires SysInv(isn, y) && Enabled(y, e) && y.snd.state == OPEN && y.snd.queue != []
               && SysAfter(y, e).snd.state == RCVR
    ensures HoldsRecovery(SysAfter(y, e).snd)
  {
    var es := SenderSteps(isn, y, e);
    var ev := es[0];
    assert es[1..] == [] && AfterAll(y.snd, es) == After(y.snd, ev);
    EntersFastRecovery(y.snd, ev);
    NxtIsBoundary(y.snd);
    StepKeepsBoundary(y.snd, ev, y.snd.nxt);
    ChainedOrder(y.snd.queue, y.snd.una, y.snd.nxt);
  }

  lemma KeepsHolding(isn: nat, y: Sys, e: Step)
    requires SysInv(isn, y) && Enabled(y, e) && y.snd.state == RCVR && HoldsRecovery(y.snd)
               && SysAfter(y, e).snd.state == RCVR
    ensures HoldsRecovery(SysAfter(y, e).snd)
  {
    var es := SenderSteps(isn, y, e);
    if es != [] {
      assert es[1..] == [] && AfterAll(y.snd, es) == After(y.snd, es[0]);
      StepHoldsRecovery(y.snd, es[0]);
    }
  }

  /** Hence in such a recovery no acknowledgement reads a packet that is not there. */
  lemma ProperRecoveryNeverReadsWild(run: seq<Sys>, acts: seq<Step>, isn: nat, wnd: nat, adv: nat, i: nat, j: nat,
                                     ack: nat, rwnd: nat)
    requires IsRun(run, acts, isn, wnd, adv) && i < j <= |acts|
    requires run[i].snd.state == OPEN && run[i].snd.queue != [] && forall m :: i < m <= j ==> run[m].snd.state == RCVR
    ensures run[j].snd.queue != [] && !ReadsWild(run[j].snd, ack) && ProcessAck(run[j].snd, ack, rwnd).1 != Wild
  {
    RecoveryHoldsPacket(run, acts, isn, wnd, adv, i, j);
    RunSysInv(run, acts, isn, wnd, adv, j);
    ChainedOrder(run[j].snd.queue, run[j].snd.una, run[j].snd.nxt);
    WildExactlyWhenEmpty(run[j].snd, ack, rwnd);
  }
}
