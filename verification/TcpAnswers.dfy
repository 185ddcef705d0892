/**
 What the receiver answers, and what it keeps: every arrival is acknowledged
 exactly once, no buffered segment is lost, and a lost acknowledgement is made
 up for.
 */
module TcpAnswers {
  import opened OfoList
  import opened RingBuffer
  import opened TcpConstants
  import opened TcpSender
  import opened TcpReceiver
  import opened TcpSenderSafety
  import opened TcpSenderTiming
  import opened TcpEndToEnd

  /** The acknowledgement a receiver sends: the next byte it expects and the space it has left. */
  function Answer(r: Rcv): AckMessage
    requires |r.queued| <= TCP_DEFAULT_WINDOW
  {
    AckMessage(r.next, TCP_DEFAULT_WINDOW - |r.queued|)
  }

  lemma AnswerIsSent(isn: nat, y: Sys)
    requires SysInv(isn, y)
    ensures |y.rcv.queued| <= TCP_DEFAULT_WINDOW && AckMessage(y.rcv.next, y.rcv.wnd % 0x1_0000) == Answer(y.rcv)
  {
  }

  // ----- Every arrival is answered once ------------------------------------------

  /**
   What an arriving segment does: the awaited one is accepted and answered later,
   any other one is answered at once, and kept if it lies ahead.
   */
  lemma ArrivalIs(isn: nat, y: Sys, k: nat)
    requires SysInv(isn, y) && Enabled(y, DataArrives(k))
    ensures var (x, z) := (y.wire[k], SysAfter(y, DataArrives(k)));
            && z.rcv.next == y.rcv.next && z.rcv.queued == y.rcv.queued && |y.rcv.queued| <= TCP_DEFAULT_WINDOW
            && (x.start == y.rcv.next ==> z.acks == y.acks && z.rcv == y.rcv.(phase := Storing(x)))
            && (x.start != y.rcv.next ==> z.acks == y.acks + [Answer(y.rcv)] && z.rcv.phase.Idle?)
            && (x.start < y.rcv.next ==> z.rcv == y.rcv)
            && (y.rcv.next < x.start ==>
                  forall w :: w in z.rcv.later <==> w in y.rcv.later || w == x)
  {
    var (x, z) := (y.wire[k], SysAfter(y, DataArrives(k)));
    AnswerIsSent(isn, y);
    if y.rcv.next < x.start {
      InsertedAscending(y.rcv.later, x);
      forall w | w in y.rcv.later && w.start == x.start
        ensures w == x
      {
        SameStart(isn, y, w, x);
      }
    }
  }

  /** Every segment but the awaited one is answered at once, even one that is lost. */
  lemma AnsweredExactly(r: Rcv, x: Segment)
    requires r.phase.Idle?
    ensures Arrive(r, x).1 <==> x.start != r.next
    ensures Arrive(r, x).0.next == r.next && Arrive(r, x).0.queued == r.queued && Arrive(r, x).0.wnd == r.wnd
    ensures r.next < x.start && Lost(r.later, x) ==> Arrive(r, x).0 == r
  {
  }

  /** Two packets of one connection with the same start are the same. */
  lemma SameStart(isn: nat, y: Sys, w: Segment, x: Segment)
    requires SysInv(isn, y) && IsSent(y.sent, w) && IsSent(y.sent, x) && w.start == x.start
    ensures w == x
  {
    ChainedOrder(y.sent, isn, isn + |y.written|);
    var i :| 0 <= i < |y.sent| && y.sent[i].segment == w;
    var j :| 0 <= j < |y.sent| && y.sent[j].segment == x;
    if i < j {
      assert SeqEnd(y.sent[i].segment) <= y.sent[j].segment.start;
    } else if j < i {
      assert SeqEnd(y.sent[j].segment) <= y.sent[i].segment.start;
    }
  }

  /** A stretch of work on an accepted segment is answered exactly when it makes the receiver idle. */
  lemma WorkIs(isn: nat, y: Sys)
    requires SysInv(isn, y) && Enabled(y, Proceeds)
    ensures var z := SysAfter(y, Proceeds);
            && |z.rcv.queued| <= TCP_DEFAULT_WINDOW
            && z.acks == if z.rcv.phase.Idle? then y.acks + [Answer(z.rcv)] else y.acks
  {
    StepKeepsSys(isn, y, Proceeds);
    AnswerIsSent(isn, SysAfter(y, Proceeds));
  }

  function Arrivals(acts: seq<Step>, i: nat): nat
    requires i <= |acts|
  {
    if i == 0 then 0 else Arrivals(acts, i - 1) + if acts[i - 1].DataArrives? then 1 else 0
  }

  /** A segment accepted and not yet answered. */
  function Pending(r: Rcv): nat {
    if r.phase.Idle? then 0 else 1
  }

  lemma StepAnswers(isn: nat, y: Sys, e: Step)
    requires SysInv(isn, y) && Enabled(y, e)
    ensures var z := SysAfter(y, e);
            |z.acks| + Pending(z.rcv) == |y.acks| + Pending(y.rcv) + if e.DataArrives? then 1 else 0
  {
    match e
    case DataArrives(k) => ArrivalIs(isn, y, k);
    case Proceeds => WorkIs(isn, y);
    case _ =>
  }

  /** Over any run there are exactly as many acknowledgements as arrivals, but for one that is being worked on. */
  lemma {:induction false} EveryArrivalIsAnswered(run: seq<Sys>, acts: seq<Step>, isn: nat, wnd: nat, adv: nat, i: nat)
    requires IsRun(run, acts, isn, wnd, adv) && i <= |acts|
    ensures |run[i].acks| + Pending(run[i].rcv) == Arrivals(acts, i)
  {
    if i > 0 {
      EveryArrivalIsAnswered(run, acts, isn, wnd, adv, i - 1);
      RunSysInv(run, acts, isn, wnd, adv, i - 1);
      assert StepAt(run, acts, i - 1);
      StepAnswers(isn, run[i - 1], acts[i - 1]);
    }
  }

  /** The receiver works on `x`, or on what follows it. */
  predicate WorksOn(r: Rcv, x: Segment) {
    match r.phase
    case Idle => SeqEnd(x) <= r.next
    case Storing(z) => z == x
    case Draining(e) => SeqEnd(x) <= e
  }

  lemma StepWorks(isn: nat, y: Sys, e: Step, x: Segment)
    requires SysInv(isn, y) && Enabled(y, e) && WorksOn(y.rcv, x) && !y.rcv.phase.Idle?
    ensures var z := SysAfter(y, e);
            && WorksOn(z.rcv, x) && |z.rcv.queued| <= TCP_DEFAULT_WINDOW
            && z.acks == if z.rcv.phase.Idle? then y.acks + [Answer(z.rcv)] else y.acks
  {
    StepKeepsSys(isn, y, e);
    if e.Proceeds? {
      WorkIs(isn, y);
    }
  }

  /** An accepted segment is answered exactly once, when the receiver becomes idle, by a number beyond it. */
  lemma {:induction false} AcceptedIsAnswered(run: seq<Sys>, acts: seq<Step>, isn: nat, wnd: nat, adv: nat, i: nat,
                                              j: nat)
    requires IsRun(run, acts, isn, wnd, adv) && i < j <= |acts| && acts[i].DataArrives?
    requires acts[i].k < |run[i].wire| && run[i].wire[acts[i].k].start == run[i].rcv.next
    requires forall m :: i < m < j ==> !run[m].rcv.phase.Idle?
    ensures var (x, z) := (run[i].wire[acts[i].k], run[j]);
            && WorksOn(z.rcv, x) && |z.rcv.queued| <= TCP_DEFAULT_WINDOW
            && z.acks == if z.rcv.phase.Idle? then run[i].acks + [Answer(z.rcv)] else run[i].acks
    decreases j
  {
    var m := j - 1;
    RunSysInv(run, acts, isn, wnd, adv, m);
    assert StepAt(run, acts, m);
    if m == i {
      ArrivalIs(isn, run[i], acts[i].k);
    } else {
      AcceptedIsAnswered(run, acts, isn, wnd, adv, i, m);
      StepWorks(isn, run[m], acts[m], run[i].wire[acts[i].k]);
    }
  }

  // ----- What is buffered is not lost ----------------------------------------------

  /** `x` is buffered, or has been put into the ring buffer. */
  predicate Kept(r: Rcv, x: Segment) {
    x in r.later || SeqEnd(x) <= Reached(r)
  }

  lemma StepKeepsSegment(isn: nat, y: Sys, e: Step, x: Segment)
    requires SysInv(isn, y) && Enabled(y, e) && Kept(y.rcv, x)
    ensures Kept(SysAfter(y, e).rcv, x)
  {
    match e
    case DataArrives(k) => ArrivalIs(isn, y, k);
    case Proceeds =>
      var r := y.rcv;
      if r.phase.Draining? && r.later != [] {
        assert r.later == [r.later[0]] + r.later[1..];
      } else if r.phase.Storing? {
        assert Reached(r) == r.next == r.phase.segment.start;
      }
    case _ =>
  }

  /** A segment that arrives ahead of the awaited one stays buffered until its bytes are queued for reading. */
  lemma {:induction false} BufferedIsKept(run: seq<Sys>, acts: seq<Step>, isn: nat, wnd: nat, adv: nat, i: nat, j: nat)
    requires IsRun(run, acts, isn, wnd, adv) && i < j <= |acts| && acts[i].DataArrives?
    requires acts[i].k < |run[i].wire| && run[i].rcv.next < run[i].wire[acts[i].k].start
    ensures Kept(run[j].rcv, run[i].wire[acts[i].k])
    decreases j
  {
    var m := j - 1;
    RunSysInv(run, acts, isn, wnd, adv, m);
    assert StepAt(run, acts, m);
    if m == i {
      ArrivalIs(isn, run[i], acts[i].k);
    } else {
      BufferedIsKept(run, acts, isn, wnd, adv, i, m);
      StepKeepsSegment(isn, run[m], acts[m], run[i].wire[acts[i].k]);
    }
  }

  /** A read hands over as many bytes as it asks for, or all there are. */
  lemma ReadTakes(isn: nat, y: Sys, n: nat)
    requires SysInv(isn, y) && Enabled(y, Reads(n))
    ensures var z := SysAfter(y, Reads(n));
            && |z.got| == |y.got| + (if n <= |y.rcv.queued| then n else |y.rcv.queued|)
            && z.got + z.rcv.queued == y.got + y.rcv.queued && z.acks == y.acks
  {
    var (r, out) := Read(y.rcv, n);
    assert out + r.queued == y.rcv.queued;
  }

  // ----- A lost acknowledgement ------------------------------------------------------

  /** The lowest packet that has not been acknowledged. */
  lemma LowestPacket(isn: nat, y: Sys) returns (k: nat)
    requires SysInv(isn, y) && y.snd.una < y.rcv.next
    ensures y.snd.queue != []
    ensures var x := y.snd.queue[0].segment;
            && x.start == y.snd.una < y.snd.nxt && x.payload != [] && IsSent(y.sent, x) && Looks(y.snd, x, k)
  {
    ChainedOrder(y.snd.queue, y.snd.una, y.snd.nxt);
    HeldIsSent(y.snd, y.sent, 0);
    k := QueuedLooks(y.snd, 0);
  }

  /** Between two states with the same `una` it has not moved. */
  lemma StillLowest(run: seq<Sys>, acts: seq<Step>, isn: nat, wnd: nat, adv: nat, i: nat, m: nat, j: nat)
    requires IsRun(run, acts, isn, wnd, adv) && i <= m <= j <= |acts|
    requires run[i].snd.una < run[i].rcv.next && run[j].snd.una == run[i].snd.una
    ensures SysInv(isn, run[i]) && SysInv(isn, run[m]) && run[m].snd.una == run[i].snd.una < run[m].rcv.next
    ensures run[i].snd.queue != [] && run[m].snd.queue != []
    ensures run[m].snd.queue[0].segment == run[i].snd.queue[0].segment
  {
    NothingIsTakenBack(run, acts, isn, wnd, adv, i, m);
    NothingIsTakenBack(run, acts, isn, wnd, adv, m, j);
    RunSysInv(run, acts, isn, wnd, adv, i);
    RunSysInv(run, acts, isn, wnd, adv, m);
    var a := LowestPacket(isn, run[i]);
    var b := LowestPacket(isn, run[m]);
    SamePacket(isn, run[i], run[m], 0, 0);
  }

  /**
   As long as the sender does not learn what the receiver has accepted, its lowest
   packet is sent again within any 100 timer scans, whatever else happens.
   */
  lemma UnackedComesAgain(run: seq<Sys>, acts: seq<Step>, isn: nat, wnd: nat, adv: nat, i: nat, j: nat)
    returns (x: Segment, m: nat)
    requires IsRun(run, acts, isn, wnd, adv) && i <= j <= |acts| && ScanSteps(acts, i, j) >= 100
    requires run[i].snd.una < run[i].rcv.next && run[j].snd.una == run[i].snd.una
    ensures x.start == run[i].snd.una && x.payload != [] && IsSent(run[i].sent, x)
    ensures i <= m < j && acts[m].Scans? && x in Scan(run[m].snd).1
    ensures run[m + 1].wire == run[m].wire + Scan(run[m].snd).1
  {
    StillLowest(run, acts, isn, wnd, adv, i, i, j);
    var k := LowestPacket(isn, run[i]);
    x := run[i].snd.queue[0].segment;
    var n := ResentWithin100(k);
    m := CountedScan(acts, i, j, n - k);
    StillLowest(run, acts, isn, wnd, adv, i, m, j);
    AgesAlong(run, acts, isn, wnd, adv, i, m, x, k);
    ScanResends(run[m].snd, 0, n - 1);
    assert StepAt(run, acts, m);
  }

  /** Whenever such a packet arrives at an idle receiver, it is answered with all that has been accepted. */
  lemma OldIsAnswered(run: seq<Sys>, acts: seq<Step>, isn: nat, wnd: nat, adv: nat, i: nat, p: nat, k: nat)
    requires IsRun(run, acts, isn, wnd, adv) && i <= p <= |acts| && run[p].rcv.phase.Idle?
    requires k < |run[p].wire| && run[p].wire[k].start < run[i].rcv.next
    ensures Enabled(run[p], DataArrives(k)) && |run[p].rcv.queued| <= TCP_DEFAULT_WINDOW
    ensures SysAfter(run[p], DataArrives(k)) == run[p].(acks := run[p].acks + [Answer(run[p].rcv)])
  {
    NothingIsTakenBack(run, acts, isn, wnd, adv, i, p);
    RunSysInv(run, acts, isn, wnd, adv, p);
    ArrivalIs(isn, run[p], k);
  }

  /** When that answer arrives in turn, the sender knows it: `una` is what the receiver expects next. */
  lemma AnswerMovesUna(isn: nat, y: Sys, rwnd: nat)
    requires SysInv(isn, y) && y.snd.una < y.rcv.next
    ensures ProcessAck(y.snd, y.rcv.next, rwnd).0.una == y.rcv.next
  {
    var i :| 0 <= i < |y.sent| && SeqEnd(y.sent[i].segment) == y.rcv.next;
    QueuedAbove(isn, y, i);
    assert Boundary(y.snd, y.rcv.next);
    AckKeepsBoundary(y.snd, y.rcv.next, rwnd, y.rcv.next);
    AckMovesUna(y.snd, y.rcv.next, rwnd);
  }
}
