/**
 The sending side: the queue of unacknowledged packets, the congestion window
 with its three states, and the retransmission timers of the queued packets.
 */
module TcpSender {
  import opened OfoList
  import opened RingBuffer
  import opened TcpConstants

  datatype CgtState = OPEN | RCVR | LOSS

  datatype SendBuffer = SendBuffer(segment: Segment, times: int, timeout: int)

  /** What a step puts on the wire again; `Wild` reads a packet where the queue has none. */
  datatype Resend = Nothing | Resend(segment: Segment) | Wild

  datatype Snd = Snd(
    una: nat, nxt: nat, wnd: nat, adv: nat,
    cwnd: nat, unit: int, ssthresh: nat,
    state: CgtState, repAck: int, recovery: nat,
    inflight: int, queue: seq<SendBuffer>)

  /** An established connection: the acknowledgement of the SYN has already opened the window from 1 to 2. */
  function InitSnd(isn: nat, wnd: nat, adv: nat): Snd {
    Snd(isn, isn, wnd, adv, 2, 0, TCP_DEFAULT_WINDOW / MSS, OPEN, 0, 0, 0, [])
  }

  function Min(x: int, y: int): int {
    if x < y then x else y
  }

  // ----- Sending ---------------------------------------------------------

  /** `tcp_send_packet` with `put_sendbuf`. */
  function SendPacket(s: Snd, data: seq<Byte>): (Snd, Segment) {
    var x := Segment(s.nxt, data);
    (s.(nxt := s.nxt + |data|, wnd := (s.wnd - |data|) % U32, inflight := s.inflight + 1,
        queue := s.queue + [SendBuffer(x, 1, TCP_RETRANS_INTERVAL_INITIAL)]), x)
  }

  // ----- Acknowledgements ------------------------------------------------

  /** `tcp_cwnd_inc`: slow start below the threshold, one more per window above it. */
  function CwndInc(s: Snd): Snd {
    if s.state != OPEN then s
    else if s.cwnd < s.ssthresh then s.(cwnd := s.cwnd + 1)
    else if s.unit + 1 >= s.cwnd then s.(unit := 0, cwnd := s.cwnd + 1)
    else s.(unit := s.unit + 1)
  }

  function PopFirst(s: Snd): Snd
    requires s.queue != []
  {
    CwndInc(s.(una := SeqEnd(s.queue[0].segment), queue := s.queue[1..], inflight := s.inflight - 1))
  }

  /** Pops every packet the acknowledgement covers, in order. */
  function PopAcked(s: Snd, ack: nat): Snd
    decreases |s.queue|
  {
    if s.queue == [] || SeqEnd(s.queue[0].segment) > ack then s else PopAcked(PopFirst(s), ack)
  }

  /** The fast-recovery step of a duplicate acknowledgement. */
  function Deflate(s: Snd): Snd {
    if s.repAck > 1 then
      s.(repAck := s.repAck - 2, cwnd := if s.cwnd - 1 < 1 then 1 else s.cwnd - 1)
    else s
  }

  function FirstOf(s: Snd): Resend {
    if s.queue == [] then Nothing else Resend(s.queue[0].segment)
  }

  function DuplicateAck(s0: Snd): (Snd, Resend) {
    var s := s0.(repAck := s0.repAck + 1);
    match s.state
    case OPEN =>
      if s.repAck > 2 then
        (Deflate(s.(state := RCVR, ssthresh := (s.cwnd + 1) / 2, recovery := s.nxt)), FirstOf(s))
      else (s, Nothing)
    case RCVR => (Deflate(s), Nothing)
    case LOSS => (s, Nothing)
  }

  function NewAck(s0: Snd, ack: nat): (Snd, Resend) {
    var s := PopAcked(s0.(repAck := 0), ack);
    match s.state
    case OPEN => (s, Nothing)
    case RCVR =>
      if s.recovery <= ack then (s.(state := OPEN), Nothing)
      else (s, if s.queue == [] then Wild else Resend(s.queue[0].segment))
    case LOSS => (if s.recovery <= ack then s.(state := OPEN) else s, Nothing)
  }

  /** `tcp_update_window_safe`. */
  function UpdateWindow(s: Snd, ack: nat, rwnd: nat): Snd {
    if s.una <= ack <= s.nxt then s.(adv := rwnd, wnd := Min(rwnd, s.cwnd * MSS)) else s
  }

  function ProcessAck(s: Snd, ack: nat, rwnd: nat): (Snd, Resend) {
    var (s', r) := if ack == s.una then DuplicateAck(s) else NewAck(s, ack);
    (UpdateWindow(s', ack, rwnd), r)
  }

  // ----- Timer -----------------------------------------------------------

  /** A packet's timer has reached zero. */
  function EnterLoss(s: Snd): Snd {
    s.(recovery := if s.state != LOSS then s.nxt else s.recovery, state := LOSS,
       ssthresh := (s.cwnd + 1) / 2, cwnd := 1, wnd := MSS)
  }

  /** One scan of one packet: its new timer, whether the timer expired, whether it is sent again. */
  function Tick(b: SendBuffer): (SendBuffer, bool, bool) {
    var t := b.timeout - TCP_TIMER_SCAN_INTERVAL;
    if t != 0 then (b.(timeout := t), false, false)
    else if b.times == 3 then (b.(times := 1, timeout := TCP_RETRANS_INTERVAL_INITIAL), true, false)
    else
      (b.(times := b.times + 1,
          timeout := if b.times + 1 == 2 then 2 * TCP_RETRANS_INTERVAL_INITIAL else 4 * TCP_RETRANS_INTERVAL_INITIAL),
       true, true)
  }

  function ScanAt(s: Snd, i: nat): Snd
    requires i < |s.queue|
  {
    var (b, expired, _) := Tick(s.queue[i]);
    (if expired then EnterLoss(s) else s).(queue := s.queue[i := b])
  }

  function ScanFrom(s: Snd, i: nat): Snd
    requires i <= |s.queue|
    decreases |s.queue| - i
  {
    if i == |s.queue| then s else ScanFrom(ScanAt(s, i), i + 1)
  }

  function ResendsFrom(q: seq<SendBuffer>): seq<Segment> {
    if q == [] then [] else (if Tick(q[0]).2 then [q[0].segment] else []) + ResendsFrom(q[1..])
  }

  /** One pass of the timer thread over the queue. */
  function Scan(s: Snd): (Snd, seq<Segment>) {
    (ScanFrom(s, 0), ResendsFrom(s.queue))
  }

  // ----- The object ------------------------------------------------------

  class Sender {
    var sndUna: nat
    var sndNxt: nat
    var sndWnd: nat
    var advWnd: nat
    var cwnd: nat
    var cwndUnit: int
    var ssthresh: nat
    var cgtState: CgtState
    var repAck: int
    var recoveryPoint: nat
    var inflight: int
    var sendBuf: seq<SendBuffer>

    ghost function State(): Snd
      reads this
    {
      Snd(sndUna, sndNxt, sndWnd, advWnd, cwnd, cwndUnit, ssthresh, cgtState, repAck, recoveryPoint, inflight, sendBuf)
    }

    constructor (isn: nat, wnd: nat, adv: nat)
      ensures State() == InitSnd(isn, wnd, adv)
    {
      sndUna, sndNxt, sndWnd, advWnd := isn, isn, wnd, adv;
      cwnd, cwndUnit, ssthresh := 2, 0, TCP_DEFAULT_WINDOW / MSS;
      cgtState, repAck, recoveryPoint, inflight, sendBuf := OPEN, 0, 0, 0, [];
    }

    method PutSendbuf(x: Segment)
      modifies this`sendBuf, this`inflight
      ensures sendBuf == old(sendBuf) + [SendBuffer(x, 1, TCP_RETRANS_INTERVAL_INITIAL)]
                && inflight == old(inflight) + 1
    {
      sendBuf := sendBuf + [SendBuffer(x, 1, TCP_RETRANS_INTERVAL_INITIAL)];
      inflight := inflight + 1;
    }

    method Send(data: seq<Byte>) returns (x: Segment)
      modifies this
      ensures (State(), x) == SendPacket(old(State()), data)
    {
      x := Segment(sndNxt, data);
      sndNxt := sndNxt + |data|;
      sndWnd := (sndWnd - |data|) % U32;
      PutSendbuf(x);
    }

    method IncreaseCwnd()
      modifies this`cwnd, this`cwndUnit
      ensures State() == CwndInc(old(State()))
    {
      if cgtState != OPEN {
        return;
      }
      if cwnd < ssthresh {
        cwnd := cwnd + 1;
      } else {
        cwndUnit := cwndUnit + 1;
        if cwndUnit >= cwnd {
          cwndUnit := 0;
          cwnd := cwnd + 1;
        }
      }
    }

    method PopSendbuf()
      requires sendBuf != []
      modifies this`sendBuf, this`inflight
      ensures sendBuf == old(sendBuf)[1..] && inflight == old(inflight) - 1
    {
      sendBuf := sendBuf[1..];
      inflight := inflight - 1;
    }

    method PopAll(ack: nat)
      modifies this`sndUna, this`sendBuf, this`inflight, this`cwnd, this`cwndUnit
      ensures State() == PopAcked(old(State()), ack)
    {
      while sendBuf != [] && SeqEnd(sendBuf[0].segment) <= ack
        invariant PopAcked(State(), ack) == PopAcked(old(State()), ack)
        decreases |sendBuf|
      {
        sndUna := SeqEnd(sendBuf[0].segment);
        PopSendbuf();
        IncreaseCwnd();
      }
    }

    method HandleDuplicate() returns (r: Resend)
      modifies this`repAck, this`cgtState, this`ssthresh, this`recoveryPoint, this`cwnd
      ensures (State(), r) == DuplicateAck(old(State()))
    {
      repAck := repAck + 1;
      r := Nothing;
      if cgtState == OPEN {
        if repAck <= 2 {
          return;
        }
        cgtState := RCVR;
        ssthresh := (cwnd + 1) / 2;
        recoveryPoint := sndNxt;
        if sendBuf != [] {
          r := Resend(sendBuf[0].segment);
        }
      }
      if cgtState == RCVR && repAck > 1 {
        repAck := repAck - 2;
        cwnd := if cwnd - 1 < 1 then 1 else cwnd - 1;
      }
    }

    method HandleNew(ack: nat) returns (r: Resend)
      modifies this
      ensures (State(), r) == NewAck(old(State()), ack)
    {
      repAck := 0;
      r := Nothing;
      PopAll(ack);
      if cgtState == RCVR {
        if recoveryPoint <= ack {
          cgtState := OPEN;
        } else {
          r := if sendBuf == [] then Wild else Resend(sendBuf[0].segment);
        }
      } else if cgtState == LOSS && recoveryPoint <= ack {
        cgtState := OPEN;
      }
    }

    method HandleAck(ack: nat, rwnd: nat) returns (r: Resend)
      modifies this
      ensures (State(), r) == ProcessAck(old(State()), ack, rwnd)
    {
      if ack == sndUna {
        r := HandleDuplicate();
      } else {
        r := HandleNew(ack);
      }
      if sndUna <= ack <= sndNxt {
        advWnd := rwnd;
        sndWnd := if advWnd < cwnd * MSS then advWnd else cwnd * MSS;
      }
    }

    /** The timer of one packet. */
    method ScanOne(i: nat) returns (again: bool)
      requires i < |sendBuf|
      modifies this`sendBuf, this`recoveryPoint, this`cgtState, this`ssthresh, this`cwnd, this`sndWnd
      ensures State() == ScanAt(old(State()), i) && again == Tick(old(sendBuf[i])).2
    {
      again := false;
      var b := sendBuf[i];
      b := b.(timeout := b.timeout - TCP_TIMER_SCAN_INTERVAL);
      if b.timeout == 0 {
        if cgtState != LOSS {
          recoveryPoint := sndNxt;
        }
        cgtState := LOSS;
        ssthresh := (cwnd + 1) / 2;
        cwnd := 1;
        sndWnd := MSS;
        b := b.(times := b.times + 1);
        if b.times - 1 == 3 {
          b := b.(times := 1, timeout := TCP_RETRANS_INTERVAL_INITIAL);
        } else {
          again := true;
          b := b.(timeout := if b.times == 2 then 2 * TCP_RETRANS_INTERVAL_INITIAL
                             else 4 * TCP_RETRANS_INTERVAL_INITIAL);
        }
      }
      sendBuf := sendBuf[i := b];
    }

    /** The timer scan of one socket. */
    method ScanTimers() returns (out: seq<Segment>)
      modifies this
      ensures (State(), out) == Scan(old(State()))
    {
      out := [];
      ghost var q := sendBuf;
      var i := 0;
      while i < |sendBuf|
        invariant i <= |sendBuf| == |q|
        invariant ScanFrom(State(), i) == ScanFrom(old(State()), 0)
        invariant forall j :: i <= j < |q| ==> sendBuf[j] == q[j]
        invariant out == ResendsFrom(q[..i])
      {
        ResendsSnoc(q, i);
        var again := ScanOne(i);
        if again {
          out := out + [sendBuf[i].segment];
        }
        i := i + 1;
      }
      assert q[..i] == q;
    }
  }

  lemma {:induction false} ResendsSnoc(q: seq<SendBuffer>, i: nat)
    requires i < |q|
    ensures ResendsFrom(q[..i + 1]) == ResendsFrom(q[..i]) + (if Tick(q[i]).2 then [q[i].segment] else [])
  {
    if i > 0 {
      ResendsSnoc(q[1..], i - 1);
      assert q[..i + 1][1..] == q[1..][..i] && q[..i][1..] == q[1..][..i - 1];
    }
  }
}
