/** What every run of the sender keeps, and what loss recovery guarantees. */
module TcpSenderSafety {
  import opened OfoList
  import opened RingBuffer
  import opened TcpConstants
  import opened TcpSender

  // ----- Runs ------------------------------------------------------------

  datatype Event = Data(payload: seq<Byte>) | Ack(ack: nat, rwnd: nat) | TimerScan

  function After(s: Snd, e: Event): Snd {
    match e
    case Data(payload) => SendPacket(s, payload).0
    case Ack(ack, rwnd) => ProcessAck(s, ack, rwnd).0
    case TimerScan => Scan(s).0
  }

  function AfterAll(s: Snd, es: seq<Event>): Snd
    decreases |es|
  {
    if es == [] then s else AfterAll(After(s, es[0]), es[1..])
  }

  /** Data packets are not empty; acknowledgements may carry any number. */
  predicate Sensible(e: Event) {
    e.Data? ==> e.payload != []
  }

  ghost predicate AllSensible(es: seq<Event>) {
    forall i :: 0 <= i < |es| ==> Sensible(es[i])
  }

  // ----- The invariant ---------------------------------------------------

  /** The queued packets follow each other without a gap from `una` to `nxt`. */
  predicate Chained(q: seq<SendBuffer>, una: nat, nxt: nat) {
    if q == [] then una == nxt
    else
      && q[0].segment.start == una && q[0].segment.payload != []
      && Chained(q[1..], SeqEnd(q[0].segment), nxt)
  }

  predicate ControlOk(s: Snd) {
    && 1 <= s.cwnd && 0 <= s.repAck && 0 <= s.unit
    && (s.state == OPEN ==> s.repAck <= 2)
    && (s.state == RCVR ==> s.repAck <= 1)
    && (s.state == LOSS ==> s.cwnd == 1)
    && (s.state != OPEN ==> s.recovery <= s.nxt)
  }

  predicate SndInv(s: Snd) {
    Chained(s.queue, s.una, s.nxt) && s.inflight == |s.queue| && ControlOk(s)
  }

  /** Sequence ends increase strictly along the queue, up to `nxt`. */
  lemma {:induction false} ChainedOrder(q: seq<SendBuffer>, una: nat, nxt: nat)
    requires Chained(q, una, nxt)
    ensures una <= nxt && (q != [] ==> una < nxt && SeqEnd(q[|q| - 1].segment) == nxt)
    ensures forall i :: 0 <= i < |q| ==> una <= q[i].segment.start < SeqEnd(q[i].segment) <= nxt
    ensures forall i, j :: 0 <= i < j < |q| ==> SeqEnd(q[i].segment) <= q[j].segment.start
  {
    if q != [] {
      ChainedOrder(q[1..], SeqEnd(q[0].segment), nxt);
      assert forall i :: 0 < i < |q| ==> q[i] == q[1..][i - 1];
    }
  }

  lemma {:induction false} ChainedSnoc(q: seq<SendBuffer>, una: nat, nxt: nat, b: SendBuffer)
    requires Chained(q, una, nxt) && b.segment.start == nxt && b.segment.payload != []
    ensures Chained(q + [b], una, SeqEnd(b.segment))
  {
    if q == [] {
      assert (q + [b])[1..] == [];
    } else {
      ChainedSnoc(q[1..], SeqEnd(q[0].segment), nxt, b);
      assert (q + [b])[1..] == q[1..] + [b];
    }
  }

  lemma {:induction false} ChainedBySegments(q: seq<SendBuffer>, q': seq<SendBuffer>, una: nat, nxt: nat)
    requires Chained(q, una, nxt) && |q'| == |q|
    requires forall i :: 0 <= i < |q| ==> q'[i].segment == q[i].segment
    ensures Chained(q', una, nxt)
  {
    if q != [] {
      ChainedBySegments(q[1..], q'[1..], SeqEnd(q[0].segment), nxt);
    }
  }

  // ----- Acknowledgements pop a prefix -------------------------------------

  /** `t` is `s` after its first `n` packets have been acknowledged. */
  predicate Popped(s: Snd, t: Snd, n: nat) {
    && n <= |s.queue| && t.queue == s.queue[n..] && t.inflight == s.inflight - n
    && t.una == (if n == 0 then s.una else SeqEnd(s.queue[n - 1].segment))
    && t.nxt == s.nxt && t.state == s.state && t.recovery == s.recovery && t.repAck == s.repAck
    && t.ssthresh == s.ssthresh && s.cwnd <= t.cwnd && (s.state != OPEN ==> t.cwnd == s.cwnd)
    && (0 <= s.unit ==> 0 <= t.unit) && (s.state != OPEN ==> t.unit == s.unit)
  }

  /** The first `n` packets are the ones that end at or below the acknowledgement. */
  ghost predicate Covered(q: seq<SendBuffer>, ack: nat, n: nat) {
    forall i :: 0 <= i < |q| ==> (i < n <==> SeqEnd(q[i].segment) <= ack)
  }

  lemma PoppedMore(s: Snd, t: Snd, n: nat)
    requires s.queue != [] && Popped(PopFirst(s), t, n)
    ensures Popped(s, t, n + 1)
  {
    assert s.queue[1..][n..] == s.queue[n + 1..];
  }

  lemma CoveredMore(q: seq<SendBuffer>, ack: nat, n: nat)
    requires q != [] && SeqEnd(q[0].segment) <= ack && Covered(q[1..], ack, n)
    ensures Covered(q, ack, n + 1)
  {
    forall i | 0 < i < |q|
      ensures i < n + 1 <==> SeqEnd(q[i].segment) <= ack
    {
      assert q[i] == q[1..][i - 1];
    }
  }

  /** Exactly the packets that end at or below the acknowledgement leave the queue. */
  lemma {:induction false} PopAckedPops(s: Snd, ack: nat) returns (n: nat)
    requires Chained(s.queue, s.una, s.nxt)
    ensures Popped(s, PopAcked(s, ack), n)
    ensures Chained(PopAcked(s, ack).queue, PopAcked(s, ack).una, s.nxt)
    ensures Covered(s.queue, ack, n)
    decreases |s.queue|
  {
    if s.queue == [] || SeqEnd(s.queue[0].segment) > ack {
      ChainedOrder(s.queue, s.una, s.nxt);
      n := 0;
    } else {
      n := PopAckedPops(PopFirst(s), ack);
      PoppedMore(s, PopAcked(s, ack), n);
      CoveredMore(s.queue, ack, n);
      n := n + 1;
    }
  }

  /** What an acknowledgement other than `una` does to the sender. */
  lemma NewAckShape(s: Snd, ack: nat, rwnd: nat) returns (n: nat)
    requires Chained(s.queue, s.una, s.nxt) && ack != s.una
    ensures var t := ProcessAck(s, ack, rwnd).0;
            && n <= |s.queue| && t.queue == s.queue[n..] && t.inflight == s.inflight - n
            && t.una == (if n == 0 then s.una else SeqEnd(s.queue[n - 1].segment))
            && t.nxt == s.nxt && t.repAck == 0 && t.recovery == s.recovery
            && s.cwnd <= t.cwnd && (s.state != OPEN ==> t.cwnd == s.cwnd) && (0 <= s.unit ==> 0 <= t.unit)
            && t.state == (if s.recovery <= ack then OPEN else s.state)
            && t.ssthresh == s.ssthresh && (s.state != OPEN ==> t.unit == s.unit)
            && Chained(t.queue, t.una, t.nxt)
    ensures Covered(s.queue, ack, n)
  {
    n := PopAckedPops(s.(repAck := 0), ack);
  }

  // ----- One scan touches only timers ---------------------------------------

  /** `t` is `s` with packets `i` and later ticked. */
  predicate Scanned(s: Snd, t: Snd, i: nat)
    requires i <= |s.queue|
  {
    && |t.queue| == |s.queue| && t.queue[..i] == s.queue[..i]
    && (forall j :: i <= j < |s.queue| ==> t.queue[j] == Tick(s.queue[j]).0)
    && t.una == s.una && t.nxt == s.nxt && t.inflight == s.inflight && t.repAck == s.repAck && t.adv == s.adv
    && (if exists j :: i <= j < |s.queue| && Tick(s.queue[j]).1
        then t.state == LOSS && t.cwnd == 1 && t.unit == s.unit
              && t.recovery == (if s.state == LOSS then s.recovery else s.nxt)
        else t == s.(queue := t.queue))
  }

  /** A scan ticks every packet once and enters LOSS exactly when some timer expires. */
  lemma {:induction false} ScanFromTicks(s: Snd, i: nat)
    requires i <= |s.queue|
    ensures Scanned(s, ScanFrom(s, i), i)
    decreases |s.queue| - i
  {
    if i < |s.queue| {
      var u := ScanAt(s, i);
      var t := ScanFrom(s, i);
      ScanFromTicks(u, i + 1);
      assert t.queue[i] == t.queue[..i + 1][i] == u.queue[i];
      assert t.queue[..i] == t.queue[..i + 1][..i] == u.queue[..i + 1][..i];
      assert forall j :: i < j < |s.queue| ==> u.queue[j] == s.queue[j];
    }
  }

  // ----- The invariant is kept ----------------------------------------------

  lemma InitKeeps(isn: nat, wnd: nat, adv: nat)
    ensures SndInv(InitSnd(isn, wnd, adv))
  {
  }

  lemma AckKeeps(s: Snd, ack: nat, rwnd: nat)
    requires SndInv(s)
    ensures SndInv(ProcessAck(s, ack, rwnd).0)
  {
    if ack != s.una {
      var n := NewAckShape(s, ack, rwnd);
    }
  }

  lemma ScanKeeps(s: Snd)
    requires SndInv(s)
    ensures SndInv(Scan(s).0)
  {
    ScanFromTicks(s, 0);
    ChainedBySegments(s.queue, Scan(s).0.queue, s.una, s.nxt);
  }

  lemma StepKeeps(s: Snd, e: Event)
    requires SndInv(s) && Sensible(e)
    ensures SndInv(After(s, e)) && s.nxt <= After(s, e).nxt && s.una <= After(s, e).una
  {
    match e
    case Data(payload) =>
      ChainedSnoc(s.queue, s.una, s.nxt, SendBuffer(Segment(s.nxt, payload), 1, TCP_RETRANS_INTERVAL_INITIAL));
    case Ack(ack, rwnd) =>
      AckKeeps(s, ack, rwnd);
      if ack != s.una {
        ChainedOrder(s.queue, s.una, s.nxt);
        var n := NewAckShape(s, ack, rwnd);
      }
    case TimerScan =>
      ScanKeeps(s);
      ScanFromTicks(s, 0);
  }

  lemma {:induction false} RunKeeps(s: Snd, es: seq<Event>)
    requires SndInv(s) && AllSensible(es)
    ensures SndInv(AfterAll(s, es)) && s.nxt <= AfterAll(s, es).nxt && s.una <= AfterAll(s, es).una
    decreases |es|
  {
    if es != [] {
      StepKeeps(s, es[0]);
      RunKeeps(After(s, es[0]), es[1..]);
    }
  }

  /**
   In every reachable state the queue holds exactly the bytes from `una` to
   `nxt` in strictly increasing packets, and `inflight` counts them.
   */
  lemma RunInv(isn: nat, wnd: nat, adv: nat, es: seq<Event>)
    requires AllSensible(es)
    ensures var s := AfterAll(InitSnd(isn, wnd, adv), es);
            && SndInv(s) && s.una <= s.nxt && s.inflight == |s.queue| && (s.queue == [] <==> s.una == s.nxt)
            && (s.queue != [] ==> SeqEnd(s.queue[|s.queue| - 1].segment) == s.nxt)
            && forall i, j :: 0 <= i < j < |s.queue| ==> SeqEnd(s.queue[i].segment) < SeqEnd(s.queue[j].segment)
  {
    InitKeeps(isn, wnd, adv);
    RunKeeps(InitSnd(isn, wnd, adv), es);
    var s := AfterAll(InitSnd(isn, wnd, adv), es);
    ChainedOrder(s.queue, s.una, s.nxt);
  }

  // ----- Recovery ------------------------------------------------------------

  /** `mark` lies below the queue or ends one of its packets. */
  predicate Boundary(s: Snd, mark: nat) {
    mark <= s.una || exists i :: 0 <= i < |s.queue| && SeqEnd(s.queue[i].segment) == mark
  }

  lemma NxtIsBoundary(s: Snd)
    requires SndInv(s)
    ensures Boundary(s, s.nxt)
  {
    ChainedOrder(s.queue, s.una, s.nxt);
  }

  lemma SuffixBoundary(s: Snd, t: Snd, n: nat, i: nat)
    requires Chained(s.queue, s.una, s.nxt) && i < |s.queue| && n <= |s.queue| && t.queue == s.queue[n..]
    requires t.una == if n == 0 then s.una else SeqEnd(s.queue[n - 1].segment)
    ensures Boundary(t, SeqEnd(s.queue[i].segment))
    ensures i < n ==> SeqEnd(s.queue[i].segment) <= t.una
  {
    ChainedOrder(s.queue, s.una, s.nxt);
    if i >= n {
      assert t.queue[i - n] == s.queue[i];
    }
  }

  lemma AckKeepsBoundary(s: Snd, ack: nat, rwnd: nat, mark: nat)
    requires SndInv(s) && Boundary(s, mark)
    ensures Boundary(ProcessAck(s, ack, rwnd).0, mark)
    ensures ack != s.una && mark <= ack ==> mark <= ProcessAck(s, ack, rwnd).0.una
  {
    if ack != s.una {
      ChainedOrder(s.queue, s.una, s.nxt);
      var n := NewAckShape(s, ack, rwnd);
      if mark > s.una {
        var i :| 0 <= i < |s.queue| && SeqEnd(s.queue[i].segment) == mark;
        SuffixBoundary(s, ProcessAck(s, ack, rwnd).0, n, i);
      }
    }
  }

  lemma StepKeepsBoundary(s: Snd, e: Event, mark: nat)
    requires SndInv(s) && Sensible(e) && Boundary(s, mark)
    ensures Boundary(After(s, e), mark)
  {
    match e
    case Data(payload) =>
      if mark > s.una {
        var i :| 0 <= i < |s.queue| && SeqEnd(s.queue[i].segment) == mark;
        assert After(s, e).queue[i] == s.queue[i];
      }
    case Ack(ack, rwnd) => AckKeepsBoundary(s, ack, rwnd, mark);
    case TimerScan =>
      ScanFromTicks(s, 0);
      if mark > s.una {
        var i :| 0 <= i < |s.queue| && SeqEnd(s.queue[i].segment) == mark;
        assert After(s, e).queue[i].segment == s.queue[i].segment;
      }
  }

  /** Recovery ends exactly with a new acknowledgement that reaches the recovery point. */
  lemma LeavesRecovery(s: Snd, e: Event)
    requires SndInv(s) && Sensible(e) && s.state != OPEN
    ensures After(s, e).state == OPEN <==> e.Ack? && e.ack != s.una && s.recovery <= e.ack
    ensures After(s, e).state != OPEN ==> s.recovery <= After(s, e).recovery
  {
    match e
    case Data(payload) =>
    case Ack(ack, rwnd) =>
      if ack != s.una {
        var n := NewAckShape(s, ack, rwnd);
      }
    case TimerScan => ScanFromTicks(s, 0);
  }

  /** The run stays out of OPEN until its last step returns there. */
  predicate Recovers(s: Snd, es: seq<Event>)
    decreases |es|
  {
    && es != [] && s.state != OPEN
    && var t := After(s, es[0]);
       if |es| == 1 then t.state == OPEN else Recovers(t, es[1..])
  }

  lemma {:induction false} RecoveryReachesMark(s: Snd, es: seq<Event>, mark: nat)
    requires SndInv(s) && AllSensible(es) && Recovers(s, es)
    requires Boundary(s, mark) && mark <= s.recovery
    ensures mark <= AfterAll(s, es).una && SndInv(AfterAll(s, es))
    decreases |es|
  {
    var e, t := es[0], After(s, es[0]);
    StepKeeps(s, e);
    StepKeepsBoundary(s, e, mark);
    LeavesRecovery(s, e);
    if |es| == 1 {
      AckKeepsBoundary(s, e.ack, e.rwnd, mark);
      assert AfterAll(t, es[1..]) == t;
    } else {
      RecoveryReachesMark(t, es[1..], mark);
    }
  }

  /** Every step out of OPEN notes the highest byte sent. */
  lemma EntersRecovery(s: Snd, e: Event)
    requires SndInv(s) && Sensible(e) && s.state == OPEN && After(s, e).state != OPEN
    ensures After(s, e).recovery == s.nxt == After(s, e).nxt
    ensures After(s, e).state == RCVR <==>
            e.Ack? && e.ack == s.una && s.repAck == 2
  {
    match e
    case Data(payload) =>
    case Ack(ack, rwnd) =>
      if ack != s.una {
        var n := NewAckShape(s, ack, rwnd);
      }
    case TimerScan => ScanFromTicks(s, 0);
  }

  /**
   When the sender is back in OPEN, every packet that was outstanding when it
   left OPEN has been acknowledged, however many states it passed in between.
   */
  lemma RecoveryAcksAllOutstanding(s: Snd, e: Event, es: seq<Event>)
    requires SndInv(s) && Sensible(e) && AllSensible(es)
    requires s.state == OPEN && Recovers(After(s, e), es)
    ensures var t := AfterAll(After(s, e), es);
            && s.nxt <= t.una
            && forall b, c :: b in s.queue && c in t.queue ==> SeqEnd(b.segment) <= c.segment.start
  {
    StepKeeps(s, e);
    EntersRecovery(s, e);
    NxtIsBoundary(s);
    StepKeepsBoundary(s, e, s.nxt);
    RecoveryReachesMark(After(s, e), es, s.nxt);
    var t := AfterAll(After(s, e), es);
    ChainedOrder(s.queue, s.una, s.nxt);
    ChainedOrder(t.queue, t.una, t.nxt);
  }

  // ----- The partial acknowledgement -----------------------------------------

  /** A partial acknowledgement reads a packet that is not there exactly in this case. */
  lemma WildExactlyWhenEmpty(s: Snd, ack: nat, rwnd: nat)
    requires SndInv(s)
    ensures ProcessAck(s, ack, rwnd).1 == Wild <==> s.state == RCVR && s.queue == [] && ack < s.recovery
    ensures s.una <= ack ==> ProcessAck(s, ack, rwnd).1 != Wild
    ensures s.state == RCVR && s.queue != [] && ack != s.una && ack < s.recovery ==>
              var t := ProcessAck(s, ack, rwnd).0;
              t.queue != [] && ProcessAck(s, ack, rwnd).1 == Resend(t.queue[0].segment)
                    && t.queue[0].segment.start == t.una
  {
    ChainedOrder(s.queue, s.una, s.nxt);
    if ack != s.una {
      var n := NewAckShape(s, ack, rwnd);
    }
  }

  /** The run never leaves RCVR. */
  predicate StaysInRcvr(s: Snd, es: seq<Event>)
    decreases |es|
  {
    s.state == RCVR && (es != [] ==> StaysInRcvr(After(s, es[0]), es[1..]))
  }

  /** The packet ending at the recovery point is still queued. */
  predicate HoldsRecovery(s: Snd) {
    s.una < s.recovery && Boundary(s, s.recovery)
  }

  lemma StepHoldsRecovery(s: Snd, e: Event)
    requires SndInv(s) && Sensible(e) && s.state == RCVR && HoldsRecovery(s) && After(s, e).state == RCVR
    ensures HoldsRecovery(After(s, e)) && After(s, e).recovery == s.recovery
  {
    StepKeepsBoundary(s, e, s.recovery);
    match e
    case Data(payload) =>
    case Ack(ack, rwnd) =>
      if ack != s.una {
        var n := NewAckShape(s, ack, rwnd);
      }
    case TimerScan => ScanFromTicks(s, 0);
  }

  lemma {:induction false} RunHoldsRecovery(s: Snd, es: seq<Event>)
    requires SndInv(s) && AllSensible(es) && HoldsRecovery(s) && StaysInRcvr(s, es)
    ensures HoldsRecovery(AfterAll(s, es)) && SndInv(AfterAll(s, es)) && AfterAll(s, es).state == RCVR
    ensures AfterAll(s, es).recovery == s.recovery
    decreases |es|
  {
    if es != [] {
      StepKeeps(s, es[0]);
      StepHoldsRecovery(s, es[0]);
      RunHoldsRecovery(After(s, es[0]), es[1..]);
    }
  }

  /**
   Fast recovery entered with a packet outstanding: as long as it lasts the queue
   is not empty, and a partial acknowledgement resends the lowest
   unacknowledged packet.
   */
  lemma PartialAckResendsLowest(s: Snd, e: Event, es: seq<Event>, ack: nat, rwnd: nat)
    requires SndInv(s) && Sensible(e) && AllSensible(es)
    requires s.state == OPEN && s.queue != [] && StaysInRcvr(After(s, e), es)
    ensures var t := AfterAll(After(s, e), es);
            && t.queue != [] && t.recovery == s.nxt
            && (ack != t.una && ack < t.recovery ==>
                  var (u, r) := ProcessAck(t, ack, rwnd);
                  u.queue != [] && r == Resend(u.queue[0].segment) && u.queue[0].segment.start == u.una)
  {
    var t0 := After(s, e);
    StepKeeps(s, e);
    EntersRecovery(s, e);
    NxtIsBoundary(s);
    StepKeepsBoundary(s, e, s.nxt);
    ChainedOrder(s.queue, s.una, s.nxt);
    RunHoldsRecovery(t0, es);
    var t := AfterAll(t0, es);
    ChainedOrder(t.queue, t.una, t.nxt);
    WildExactlyWhenEmpty(t, ack, rwnd);
  }

  // ----- What an acknowledgement leaves alone ----------------------------------

  /** A duplicate touches the count of duplicates, and on the third one of OPEN, or in RCVR, the window. */
  lemma DuplicateEffects(s: Snd, rwnd: nat)
    requires SndInv(s)
    ensures var t := ProcessAck(s, s.una, rwnd).0;
            && t.una == s.una && t.nxt == s.nxt && t.queue == s.queue && t.inflight == s.inflight && t.unit == s.unit
            && match s.state
               case OPEN =>
                 if s.repAck < 2 then
                   && t.state == OPEN && t.repAck == s.repAck + 1
                   && t.cwnd == s.cwnd && t.ssthresh == s.ssthresh && t.recovery == s.recovery
                 else
                   && t.state == RCVR && t.repAck == 1 && t.recovery == s.nxt
                   && t.cwnd == (if s.cwnd == 1 then 1 else s.cwnd - 1) && t.ssthresh == (s.cwnd + 1) / 2
               case RCVR =>
                 && t.state == RCVR && t.recovery == s.recovery && t.ssthresh == s.ssthresh
                 && t.repAck == 1 - s.repAck
                 && t.cwnd == if s.repAck == 0 || s.cwnd == 1 then s.cwnd else s.cwnd - 1
               case LOSS =>
                 && t.state == LOSS && t.recovery == s.recovery && t.ssthresh == s.ssthresh
                 && t.repAck == s.repAck + 1 && t.cwnd == s.cwnd
  {
  }

  /** An acknowledgement sends a packet again exactly in two cases. */
  lemma AckResendsExactly(s: Snd, ack: nat, rwnd: nat)
    requires SndInv(s)
    ensures var (t, out) := ProcessAck(s, ack, rwnd);
            out == if ack == s.una && s.state == OPEN && s.repAck == 2 && s.queue != [] then Resend(s.queue[0].segment)
                   else if ack != s.una && s.state == RCVR && ack < s.recovery
                   then (if t.queue == [] then Wild else Resend(t.queue[0].segment))
                   else Nothing
  {
    if ack != s.una {
      var n := NewAckShape(s, ack, rwnd);
    }
  }

  // ----- The send window ------------------------------------------------------

  /** Only an acknowledgement within what was outstanding before it moves the window, to the smaller limit. */
  lemma WindowMovesExactly(s: Snd, ack: nat, rwnd: nat)
    requires SndInv(s)
    ensures var t := ProcessAck(s, ack, rwnd).0;
            if s.una <= ack <= s.nxt then t.adv == rwnd && t.wnd == Min(rwnd, t.cwnd * MSS) && t.una <= ack
            else t.adv == s.adv && t.wnd == s.wnd
  {
    ChainedOrder(s.queue, s.una, s.nxt);
    if ack != s.una {
      PopKeepsWindow(s.(repAck := 0), ack);
      var n := NewAckShape(s, ack, rwnd);
    }
  }

  lemma {:induction false} PopKeepsWindow(s: Snd, ack: nat)
    ensures PopAcked(s, ack).wnd == s.wnd && PopAcked(s, ack).adv == s.adv
    decreases |s.queue|
  {
    if s.queue != [] && SeqEnd(s.queue[0].segment) <= ack {
      PopKeepsWindow(PopFirst(s), ack);
    }
  }
}
