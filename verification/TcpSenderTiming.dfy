/** When packets are sent again, and how the congestion window moves. */
module TcpSenderTiming {
  import opened OfoList
  import opened RingBuffer
  import opened TcpConstants
  import opened TcpSender
  import opened TcpSenderSafety

  // ----- Timers --------------------------------------------------------------

  /** A packet `k` scans after it was sent: the back-off repeats every 140 scans. */
  function Aged(x: Segment, k: nat): SendBuffer {
    var p := k % 140;
    if p < 20 then SendBuffer(x, 1, (20 - p) * TCP_TIMER_SCAN_INTERVAL)
    else if p < 60 then SendBuffer(x, 2, (60 - p) * TCP_TIMER_SCAN_INTERVAL)
    else SendBuffer(x, 3, (140 - p) * TCP_TIMER_SCAN_INTERVAL)
  }

  /** The scan that makes a packet `k` scans old sends it again. */
  predicate ResentAt(k: nat) {
    k % 140 == 20 || k % 140 == 60
  }

  /** The exact test for zero is never skipped: the timer is positive until it expires. */
  lemma TickAged(x: Segment, k: nat)
    ensures Aged(x, k).timeout > 0 && Aged(x, k).timeout % TCP_TIMER_SCAN_INTERVAL == 0
    ensures Tick(Aged(x, k)) == (Aged(x, k + 1), ResentAt(k + 1) || (k + 1) % 140 == 0, ResentAt(k + 1))
  {
    var p := k % 140;
    assert (k + 1) % 140 == if p == 139 then 0 else p + 1;
  }

  // ----- What a scan sends ------------------------------------------------------

  predicate Ascends(out: seq<Segment>) {
    forall i, j :: 0 <= i < j < |out| ==> out[i].start < out[j].start
  }

  /** A scan sends in the order of the queue, and each packet at most once. */
  lemma {:induction false} ResendsAscend(q: seq<SendBuffer>, una: nat, nxt: nat)
    requires Chained(q, una, nxt)
    ensures forall i :: 0 <= i < |ResendsFrom(q)| ==> una <= ResendsFrom(q)[i].start
    ensures Ascends(ResendsFrom(q))
    decreases |q|
  {
    if q != [] {
      ResendsAscend(q[1..], SeqEnd(q[0].segment), nxt);
      var rest := ResendsFrom(q[1..]);
      var out := ResendsFrom(q);
      if Tick(q[0]).2 {
        assert out == [q[0].segment] + rest;
        assert forall i :: 0 < i < |out| ==> out[i] == rest[i - 1];
      } else {
        assert out == rest;
        assert forall i :: 0 <= i < |out| ==> out[i] == rest[i] && SeqEnd(q[0].segment) <= rest[i].start;
      }
    }
  }

  lemma {:induction false} OnceAscending(out: seq<Segment>, x: Segment)
    requires Ascends(out)
    ensures multiset(out)[x] == if x in out then 1 else 0
  {
    if out != [] {
      var rest := out[1..];
      assert out == [out[0]] + rest;
      OnceAscending(rest, x);
      assert x == out[0] ==> x !in rest;
    }
  }

  /** The packet is queued, and its timer says that it is sent again now. */
  ghost predicate Due(s: Snd, x: Segment) {
    exists i :: 0 <= i < |s.queue| && s.queue[i].segment == x && Tick(s.queue[i]).2
  }

  /** In any state of a sender a scan sends exactly the packets of that age, each once, in the order of the queue. */
  lemma ScanSends(s: Snd)
    requires SndInv(s)
    ensures var out := Scan(s).1;
            && Ascends(out)
            && forall x :: multiset(out)[x] == if Due(s, x) then 1 else 0
  {
    ResendsAscend(s.queue, s.una, s.nxt);
    forall x: Segment
      ensures multiset(Scan(s).1)[x] == if Due(s, x) then 1 else 0
    {
      ResendsAre(s.queue, x);
      OnceAscending(Scan(s).1, x);
    }
  }

  function ScanCount(es: seq<Event>): nat {
    if es == [] then 0 else (if es[0].TimerScan? then 1 else 0) + ScanCount(es[1..])
  }

  /** If the packet is still queued, it looks `k` scans old. */
  ghost predicate Looks(s: Snd, x: Segment, k: nat) {
    forall i :: 0 <= i < |s.queue| && s.queue[i].segment.start == x.start ==> s.queue[i] == Aged(x, k)
  }

  lemma StepLooks(s: Snd, e: Event, x: Segment, k: nat)
    requires SndInv(s) && Sensible(e) && x.start < s.nxt && Looks(s, x, k)
    ensures Looks(After(s, e), x, if e.TimerScan? then k + 1 else k)
  {
    match e
    case Data(payload) =>
    case Ack(ack, rwnd) =>
      if ack != s.una {
        var n := NewAckShape(s, ack, rwnd);
      }
    case TimerScan =>
      ScanFromTicks(s, 0);
      TickAged(x, k);
  }

  lemma {:induction false} RunLooks(s: Snd, es: seq<Event>, x: Segment, k: nat)
    requires SndInv(s) && AllSensible(es) && x.start < s.nxt && Looks(s, x, k)
    ensures Looks(AfterAll(s, es), x, k + ScanCount(es))
    decreases |es|
  {
    if es != [] {
      StepKeeps(s, es[0]);
      StepLooks(s, es[0], x, k);
      RunLooks(After(s, es[0]), es[1..], x, if es[0].TimerScan? then k + 1 else k);
    }
  }

  lemma {:induction false} ResendsAre(q: seq<SendBuffer>, x: Segment)
    ensures x in ResendsFrom(q) <==> exists i :: 0 <= i < |q| && q[i].segment == x && Tick(q[i]).2
  {
    if q != [] {
      ResendsAre(q[1..], x);
      if x in ResendsFrom(q[1..]) {
        var i :| 0 <= i < |q| - 1 && q[1..][i].segment == x && Tick(q[1..][i]).2;
        assert q[i + 1].segment == x && Tick(q[i + 1]).2;
      }
      forall i | 0 < i < |q| && q[i].segment == x && Tick(q[i]).2
        ensures x in ResendsFrom(q[1..])
      {
        assert q[1..][i - 1].segment == x && Tick(q[1..][i - 1]).2;
      }
    }
  }

  /** A packet sent in state `s`, after any further events `es`. */
  lemma SentLooks(s: Snd, data: seq<Byte>, es: seq<Event>)
    requires SndInv(s) && data != [] && AllSensible(es)
    ensures Looks(AfterAll(After(s, Data(data)), es), Segment(s.nxt, data), ScanCount(es))
  {
    StepKeeps(s, Data(data));
    ChainedOrder(s.queue, s.una, s.nxt);
    RunLooks(After(s, Data(data)), es, Segment(s.nxt, data), 0);
  }

  /**
   A packet that is still queued is sent again by exactly the scans 20 and 60
   of every 140, whatever data and acknowledgements arrive in between.
   */
  lemma ResentExactly(s: Snd, data: seq<Byte>, es: seq<Event>)
    requires SndInv(s) && data != [] && AllSensible(es)
    ensures var x := Segment(s.nxt, data);
            var t := AfterAll(After(s, Data(data)), es);
            (exists b :: b in t.queue && b.segment == x) ==> (x in Scan(t).1 <==> ResentAt(ScanCount(es) + 1))
  {
    var x := Segment(s.nxt, data);
    var t := AfterAll(After(s, Data(data)), es);
    SentLooks(s, data, es);
    ResendsAre(t.queue, x);
    TickAged(x, ScanCount(es));
  }

  // ----- How often a packet is sent -----------------------------------------------

  ghost predicate Queued(s: Snd, x: Segment) {
    exists i :: 0 <= i < |s.queue| && s.queue[i].segment == x
  }

  /** A packet that is still queued was queued before. */
  lemma StillQueued(s: Snd, e: Event, x: Segment)
    requires SndInv(s) && x.start < s.nxt && Queued(After(s, e), x)
    ensures Queued(s, x)
  {
    var i :| 0 <= i < |After(s, e).queue| && After(s, e).queue[i].segment == x;
    match e
    case Data(payload) =>
      assert i < |s.queue|;
    case Ack(ack, rwnd) =>
      if ack != s.una {
        var n := NewAckShape(s, ack, rwnd);
        assert s.queue[n + i].segment == x;
      }
    case TimerScan =>
      ScanFromTicks(s, 0);
      assert s.queue[i].segment == x;
  }

  lemma {:induction false} StillQueuedAfter(s: Snd, es: seq<Event>, x: Segment)
    requires SndInv(s) && AllSensible(es) && x.start < s.nxt && Queued(AfterAll(s, es), x)
    ensures Queued(s, x)
    decreases |es|
  {
    if es != [] {
      StepKeeps(s, es[0]);
      StillQueuedAfter(After(s, es[0]), es[1..], x);
      StillQueued(s, es[0], x);
    }
  }

  /** The copies of a packet that the scans of a run put on the wire. */
  function Copies(s: Snd, es: seq<Event>, x: Segment): nat
    decreases |es|
  {
    if es == [] then 0
    else (if es[0].TimerScan? then multiset(Scan(s).1)[x] else 0) + Copies(After(s, es[0]), es[1..], x)
  }

  /** The scans up to number `n` that send a packet again. */
  function ResentUpTo(n: nat): nat {
    (n + 120) / 140 + (n + 80) / 140
  }

  lemma Rounds(n: nat)
    ensures (n + 1) / 140 == n / 140 + if (n + 1) % 140 == 0 then 1 else 0
  {
  }

  lemma Residues(n: nat)
    ensures (n + 121) % 140 == 0 <==> (n + 1) % 140 == 20
    ensures (n + 81) % 140 == 0 <==> (n + 1) % 140 == 60
  {
    var (q, p) := ((n + 1) / 140, (n + 1) % 140);
    assert n + 121 == 140 * q + (p + 120) && n + 81 == 140 * q + (p + 80);
  }

  lemma ResentCounts(n: nat)
    ensures ResentUpTo(n + 1) == ResentUpTo(n) + if ResentAt(n + 1) then 1 else 0
  {
    Rounds(n + 120);
    Rounds(n + 80);
    Residues(n);
  }

  lemma {:induction false} CopiesFrom(s: Snd, es: seq<Event>, x: Segment, k: nat)
    requires SndInv(s) && AllSensible(es) && x.start < s.nxt && Looks(s, x, k) && Queued(AfterAll(s, es), x)
    ensures Copies(s, es, x) == ResentUpTo(k + ScanCount(es)) - ResentUpTo(k)
    decreases |es|
  {
    if es != [] {
      StepKeeps(s, es[0]);
      StepLooks(s, es[0], x, k);
      StillQueuedAfter(s, es, x);
      CopiesFrom(After(s, es[0]), es[1..], x, if es[0].TimerScan? then k + 1 else k);
      if es[0].TimerScan? {
        CopyOfScan(s, x, k);
        ResentCounts(k);
      }
    }
  }

  lemma CopyOfScan(s: Snd, x: Segment, k: nat)
    requires SndInv(s) && Looks(s, x, k) && Queued(s, x)
    ensures multiset(Scan(s).1)[x] == if ResentAt(k + 1) then 1 else 0
  {
    ScanSends(s);
    TickAged(x, k);
  }

  /** While a packet stays queued, `n` scans put it on the wire exactly `(n + 120) / 140 + (n + 80) / 140` times. */
  lemma CopiesExactly(s: Snd, data: seq<Byte>, es: seq<Event>)
    requires SndInv(s) && data != [] && AllSensible(es)
    requires Queued(AfterAll(After(s, Data(data)), es), Segment(s.nxt, data))
    ensures var n := ScanCount(es);
            Copies(After(s, Data(data)), es, Segment(s.nxt, data)) == (n + 120) / 140 + (n + 80) / 140
  {
    StepKeeps(s, Data(data));
    SentLooks(s, data, []);
    CopiesFrom(After(s, Data(data)), es, Segment(s.nxt, data), 0);
  }

  lemma PhaseLater(k: nat, d: nat)
    requires d <= 100
    ensures (k + d) % 140 == if k % 140 + d < 140 then k % 140 + d else k % 140 + d - 140
  {
  }

  /** Hence no 100 scans pass without the packet being sent again. */
  lemma ResentWithin100(k: nat) returns (n: nat)
    ensures k < n <= k + 100 && ResentAt(n)
    ensures forall m :: k < m < n ==> !ResentAt(m)
  {
    var p := k % 140;
    var d := if p < 20 then 20 - p else if p < 60 then 60 - p else 160 - p;
    n := k + d;
    PhaseLater(k, d);
    forall m | k < m < n
      ensures !ResentAt(m)
    {
      PhaseLater(k, m - k);
    }
  }

  // ----- The congestion window in OPEN ---------------------------------------

  function Triangle(n: nat): nat {
    if n == 0 then 0 else Triangle(n - 1) + n - 1
  }

  lemma {:induction false} TriangleIs(n: nat)
    ensures 2 * Triangle(n) == n * (n - 1)
  {
    if n > 0 {
      TriangleIs(n - 1);
    }
  }

  /** Acknowledgements counted by the window: one for each it took to grow this far. */
  function Credit(s: Snd): int {
    Triangle(s.cwnd) + s.unit
  }

  predicate Avoiding(s: Snd) {
    s.state == OPEN && s.ssthresh <= s.cwnd && 0 <= s.unit < s.cwnd
  }

  lemma {:induction false} AvoidanceCounts(s: Snd, ack: nat)
    requires Avoiding(s)
    ensures var t := PopAcked(s, ack);
            Avoiding(t) && |t.queue| <= |s.queue| && Credit(t) == Credit(s) + (|s.queue| - |t.queue|)
    decreases |s.queue|
  {
    if s.queue != [] && SeqEnd(s.queue[0].segment) <= ack {
      AvoidanceCounts(PopFirst(s), ack);
    }
  }

  /** The window when slow start ends, or now if it has ended. */
  function Threshold(s: Snd): nat {
    if s.cwnd < s.ssthresh then s.ssthresh else s.cwnd
  }

  /**
   The window after an acknowledgement of `n` packets.  Up to the threshold it
   has grown by one for each; beyond, the packets past the threshold are
   counted, the first of them closing a round left over from a larger window.
   */
  ghost predicate Grown(s: Snd, t: Snd, n: nat) {
    var b := Threshold(s);
    && t.state == OPEN && t.ssthresh == s.ssthresh
    && (s.cwnd + n <= b ==> t.cwnd == s.cwnd + n && t.unit == s.unit)
    && (s.cwnd + n > b ==>
          && Avoiding(t)
          && Credit(t) == if s.unit < b then Triangle(b) + s.unit + (s.cwnd + n - b)
                          else Triangle(b + 1) + (s.cwnd + n - b) - 1)
  }

  lemma GrownMore(s: Snd, t: Snd, n: nat)
    requires s.queue != [] && s.state == OPEN && 1 <= s.cwnd && 0 <= s.unit && Grown(PopFirst(s), t, n)
    ensures Grown(s, t, n + 1)
  {
  }

  lemma {:induction false} GrowthOf(s: Snd, ack: nat)
    requires s.state == OPEN && 1 <= s.cwnd && 0 <= s.unit
    ensures var t := PopAcked(s, ack); |t.queue| <= |s.queue| && Grown(s, t, |s.queue| - |t.queue|)
    decreases |s.queue|
  {
    if s.queue != [] && SeqEnd(s.queue[0].segment) <= ack {
      GrowthOf(PopFirst(s), ack);
      var t := PopAcked(s, ack);
      GrownMore(s, t, |s.queue| - 1 - |t.queue|);
    }
  }

  /** What any acknowledgement that leaves OPEN alone does to the window, on both sides of the threshold. */
  lemma AckGrows(s: Snd, ack: nat, rwnd: nat)
    requires SndInv(s) && s.state == OPEN && ack != s.una
    ensures var t := ProcessAck(s, ack, rwnd).0;
            |t.queue| <= |s.queue| && Grown(s, t, |s.queue| - |t.queue|)
  {
    GrowthOf(s.(repAck := 0), ack);
  }

  predicate StaysOpen(s: Snd, es: seq<Event>)
    decreases |es|
  {
    s.state == OPEN && (es != [] ==> StaysOpen(After(s, es[0]), es[1..]))
  }

  function Sends(es: seq<Event>): nat {
    if es == [] then 0 else (if es[0].Data? then 1 else 0) + Sends(es[1..])
  }

  lemma StepCredit(s: Snd, e: Event)
    requires Avoiding(s) && After(s, e).state == OPEN
    ensures var t := After(s, e);
            Avoiding(t) && Credit(t) + |t.queue| == Credit(s) + |s.queue| + Sends([e])
  {
    match e
    case Data(payload) =>
    case Ack(ack, rwnd) =>
      if ack != s.una {
        AvoidanceCounts(s.(repAck := 0), ack);
      }
    case TimerScan => ScanFromTicks(s, 0);
  }

  /**
   Over any run that stays in OPEN above the threshold, the window counts every
   packet once: credit plus packets outstanding grows by the packets sent.
   */
  lemma {:induction false} CreditConserved(s: Snd, es: seq<Event>)
    requires Avoiding(s) && StaysOpen(s, es)
    ensures var t := AfterAll(s, es);
            && Avoiding(t) && Credit(t) + |t.queue| == Credit(s) + |s.queue| + Sends(es)
            && 2 * Credit(t) == t.cwnd * (t.cwnd - 1) + 2 * t.unit
    decreases |es|
  {
    TriangleIs(AfterAll(s, es).cwnd);
    if es != [] {
      StepCredit(s, es[0]);
      CreditConserved(After(s, es[0]), es[1..]);
    }
  }

  lemma {:induction false} SlowStartPops(s: Snd, ack: nat)
    requires s.state == OPEN && s.cwnd + |s.queue| <= s.ssthresh
    ensures var t := PopAcked(s, ack);
            && t.state == OPEN && t.ssthresh == s.ssthresh && t.unit == s.unit
            && t.cwnd + |t.queue| == s.cwnd + |s.queue|
    decreases |s.queue|
  {
    if s.queue != [] && SeqEnd(s.queue[0].segment) <= ack {
      SlowStartPops(PopFirst(s), ack);
    }
  }

  lemma SlowStartStep(s: Snd, e: Event)
    requires s.state == OPEN && After(s, e).state == OPEN && s.cwnd + |s.queue| + Sends([e]) <= s.ssthresh
    ensures var t := After(s, e);
            && t.ssthresh == s.ssthresh && t.unit == s.unit
            && t.cwnd + |t.queue| == s.cwnd + |s.queue| + Sends([e])
  {
    match e
    case Data(payload) =>
    case Ack(ack, rwnd) =>
      if ack != s.una {
        SlowStartPops(s.(repAck := 0), ack);
      }
    case TimerScan => ScanFromTicks(s, 0);
  }

  /** In slow start the window grows by one for each packet acknowledged, over any run that stays in OPEN. */
  lemma {:induction false} SlowStartCounts(s: Snd, es: seq<Event>)
    requires StaysOpen(s, es) && s.cwnd + |s.queue| + Sends(es) <= s.ssthresh
    ensures var t := AfterAll(s, es);
            && t.cwnd + |t.queue| == s.cwnd + |s.queue| + Sends(es) && t.ssthresh == s.ssthresh && t.unit == s.unit
    decreases |es|
  {
    if es != [] {
      assert es[0] == [es[0]][0] && [es[0]][1..] == [];
      SlowStartStep(s, es[0]);
      SlowStartCounts(After(s, es[0]), es[1..]);
    }
  }

  /** A connection starts with a window of two packets, which grows by one for each acknowledged, up to 44. */
  lemma SlowStartFromTwo(isn: nat, wnd: nat, adv: nat, es: seq<Event>)
    requires StaysOpen(InitSnd(isn, wnd, adv), es) && Sends(es) <= 42
    ensures var t := AfterAll(InitSnd(isn, wnd, adv), es);
            t.cwnd + |t.queue| == 2 + Sends(es) && t.ssthresh == 44 && t.unit == 0
  {
    SlowStartCounts(InitSnd(isn, wnd, adv), es);
  }

  // ----- The congestion window in RCVR ----------------------------------------

  function AtLeastOne(x: int): int {
    if x < 1 then 1 else x
  }

  /** Fast recovery is always entered by the third duplicate. */
  lemma EntersFastRecovery(s: Snd, e: Event)
    requires SndInv(s) && Sensible(e) && s.state != RCVR && After(s, e).state == RCVR
    ensures s.state == OPEN && s.repAck == 2 && e.Ack? && e.ack == s.una
    ensures var t := After(s, e);
            && t.repAck == 1 && t.cwnd == AtLeastOne(s.cwnd - 1) && t.ssthresh == (s.cwnd + 1) / 2
            && t.recovery == s.nxt && t.una == s.una && t.queue == s.queue
    ensures ProcessAck(s, e.ack, e.rwnd).1 == if s.queue == [] then Nothing else Resend(s.queue[0].segment)
  {
    match e
    case Data(payload) =>
    case Ack(ack, rwnd) =>
      if ack != s.una {
        var n := NewAckShape(s, ack, rwnd);
      }
    case TimerScan => ScanFromTicks(s, 0);
  }

  /** Only duplicates of `una`, possibly between packets being sent. */
  ghost predicate OnlyDuplicates(es: seq<Event>, una: nat) {
    forall i :: 0 <= i < |es| ==> es[i].Data? || (es[i].Ack? && es[i].ack == una)
  }

  lemma {:induction false} DuplicatesDeflate(s: Snd, es: seq<Event>, c: int)
    requires s.state == RCVR && 0 <= s.repAck <= 1 && s.cwnd == AtLeastOne(c)
    requires OnlyDuplicates(es, s.una)
    ensures var (t, n) := (AfterAll(s, es), |es| - Sends(es));
            && t.state == RCVR && t.una == s.una && t.recovery == s.recovery
            && t.cwnd == AtLeastOne(c - (s.repAck + n) / 2) && t.repAck == (s.repAck + n) % 2
    decreases |es|
  {
    if es != [] {
      var t := After(s, es[0]);
      DuplicatesDeflate(t, es[1..], if es[0].Ack? && s.repAck == 1 then c - 1 else c);
    }
  }

  /** After `n` further duplicates the window is `max(1, c - 1 - (n + 1) / 2)`. */
  lemma FastRecoveryWindow(s: Snd, e: Event, es: seq<Event>)
    requires SndInv(s) && Sensible(e) && s.state != RCVR && After(s, e).state == RCVR
    requires OnlyDuplicates(es, s.una)
    ensures var (t, n) := (AfterAll(After(s, e), es), |es| - Sends(es));
            && t.state == RCVR && t.recovery == s.nxt
            && t.cwnd == AtLeastOne(s.cwnd - 1 - (n + 1) / 2) && t.repAck == (n + 1) % 2
  {
    EntersFastRecovery(s, e);
    DuplicatesDeflate(After(s, e), es, s.cwnd - 1);
  }

  // ----- The threshold after a time-out ----------------------------------------

  function Expiries(q: seq<SendBuffer>): nat {
    if q == [] then 0 else (if Tick(q[0]).1 then 1 else 0) + Expiries(q[1..])
  }

  lemma {:induction false} ScanFromHalves(s: Snd, i: nat)
    requires i <= |s.queue|
    ensures var (t, n) := (ScanFrom(s, i), Expiries(s.queue[i..]));
            && t.ssthresh == (if n == 0 then s.ssthresh else if n == 1 then (s.cwnd + 1) / 2 else 1)
            && t.wnd == if n == 0 then s.wnd else MSS
    decreases |s.queue| - i
  {
    if i < |s.queue| {
      var u := ScanAt(s, i);
      assert u.queue[i + 1..] == s.queue[i + 1..] == s.queue[i..][1..];
      ScanFromHalves(u, i + 1);
    }
  }

  lemma {:induction false} ExpiriesAtLeast(q: seq<SendBuffer>, i: nat, j: nat)
    requires i < j < |q| && Tick(q[i]).1 && Tick(q[j]).1
    ensures Expiries(q) >= 2
  {
    if i > 0 {
      ExpiriesAtLeast(q[1..], i - 1, j - 1);
    } else {
      ExpiriesAtLeastOne(q[1..], j - 1);
    }
  }

  lemma {:induction false} ExpiriesAtLeastOne(q: seq<SendBuffer>, j: nat)
    requires j < |q| && Tick(q[j]).1
    ensures Expiries(q) >= 1
  {
    if j > 0 {
      ExpiriesAtLeastOne(q[1..], j - 1);
    }
  }

  /** One expiry halves the window; a second one in the same scan leaves a threshold of 1. */
  lemma ScanHalvesOnce(s: Snd)
    ensures var (t, n) := (Scan(s).0, Expiries(s.queue));
            && t.ssthresh == (if n == 0 then s.ssthresh else if n == 1 then (s.cwnd + 1) / 2 else 1)
            && t.wnd == if n == 0 then s.wnd else MSS
  {
    assert s.queue[0..] == s.queue;
    ScanFromHalves(s, 0);
  }

  /** Two packets sent between the same two scans time out together, so the threshold collapses. */
  lemma BurstCollapsesThreshold(s: Snd, first: seq<Byte>, second: seq<Byte>, es: seq<Event>, i: nat, j: nat)
    requires SndInv(s) && first != [] && second != [] && AllSensible(es)
    requires var t := AfterAll(After(After(s, Data(first)), Data(second)), es);
             && i < |t.queue| && j < |t.queue|
             && t.queue[i].segment.start == s.nxt && t.queue[j].segment.start == s.nxt + |first|
    requires ResentAt(ScanCount(es) + 1) || (ScanCount(es) + 1) % 140 == 0
    ensures Scan(AfterAll(After(After(s, Data(first)), Data(second)), es)).0.ssthresh == 1
  {
    var s1 := After(s, Data(first));
    var more := [Data(second)] + es;
    assert more[1..] == es && AfterAll(s1, more) == AfterAll(After(s1, Data(second)), es);
    StepKeeps(s, Data(first));
    SentLooks(s, first, more);
    SentLooks(s1, second, es);
    var t := AfterAll(s1, more);
    TickAged(Segment(s.nxt, first), ScanCount(es));
    TickAged(Segment(s1.nxt, second), ScanCount(es));
    if i < j {
      ExpiriesAtLeast(t.queue, i, j);
    } else {
      ExpiriesAtLeast(t.queue, j, i);
    }
    ScanHalvesOnce(t);
  }

  // ----- The threshold over a run -------------------------------------------------

  /** What lowers the threshold: the third duplicate in OPEN, or a scan in which a timer expires. */
  ghost predicate Cuts(s: Snd, e: Event) {
    || (e.Ack? && s.state == OPEN && e.ack == s.una && s.repAck == 2)
    || (e.TimerScan? && exists i :: 0 <= i < |s.queue| && Tick(s.queue[i]).1)
  }

  lemma {:induction false} NoExpiries(q: seq<SendBuffer>)
    ensures Expiries(q) == 0 <==> forall i :: 0 <= i < |q| ==> !Tick(q[i]).1
  {
    if q != [] {
      NoExpiries(q[1..]);
      assert forall i :: 0 < i < |q| ==> q[i] == q[1..][i - 1];
    }
  }

  /** Nothing else changes it. */
  lemma ThresholdMoves(s: Snd, e: Event)
    requires SndInv(s) && Sensible(e)
    ensures !Cuts(s, e) ==> After(s, e).ssthresh == s.ssthresh
    ensures Cuts(s, e) ==> After(s, e).ssthresh == (s.cwnd + 1) / 2 || (e.TimerScan? && After(s, e).ssthresh == 1)
  {
    match e
    case Data(payload) =>
    case Ack(ack, rwnd) =>
      if ack == s.una {
        DuplicateEffects(s, rwnd);
      } else {
        var n := NewAckShape(s, ack, rwnd);
      }
    case TimerScan =>
      ScanHalvesOnce(s);
      NoExpiries(s.queue);
  }

  ghost predicate NoCuts(s: Snd, es: seq<Event>)
    decreases |es|
  {
    es != [] ==> !Cuts(s, es[0]) && NoCuts(After(s, es[0]), es[1..])
  }

  lemma {:induction false} ThresholdStays(s: Snd, es: seq<Event>)
    requires SndInv(s) && AllSensible(es) && NoCuts(s, es)
    ensures AfterAll(s, es).ssthresh == s.ssthresh && SndInv(AfterAll(s, es))
    decreases |es|
  {
    if es != [] {
      StepKeeps(s, es[0]);
      ThresholdMoves(s, es[0]);
      ThresholdStays(After(s, es[0]), es[1..]);
    }
  }

  /** A connection starts with a threshold of 44 packets and keeps it until the first loss. */
  lemma FirstThreshold(isn: nat, wnd: nat, adv: nat, es: seq<Event>)
    requires AllSensible(es) && NoCuts(InitSnd(isn, wnd, adv), es)
    ensures AfterAll(InitSnd(isn, wnd, adv), es).ssthresh == 44
  {
    InitKeeps(isn, wnd, adv);
    ThresholdStays(InitSnd(isn, wnd, adv), es);
  }

  /**
   Entered at window `c`, fast recovery sets the threshold to `(c + 1) / 2`, and
   there it stays through the recovery and after it, until the next cut.  Back
   in OPEN the window grows by that threshold.
   */
  lemma ThresholdAfterRecovery(s: Snd, e: Event, es: seq<Event>, ack: nat, rwnd: nat)
    requires SndInv(s) && Sensible(e) && s.state != RCVR && After(s, e).state == RCVR
    requires AllSensible(es) && NoCuts(After(s, e), es)
    ensures var t := AfterAll(After(s, e), es);
            && t.ssthresh == (s.cwnd + 1) / 2
            && (t.state == OPEN && ack != t.una ==>
                  var u := ProcessAck(t, ack, rwnd).0;
                  |u.queue| <= |t.queue| && Grown(t, u, |t.queue| - |u.queue|)
                        && Threshold(t) == if t.cwnd < (s.cwnd + 1) / 2 then (s.cwnd + 1) / 2 else t.cwnd)
  {
    EntersFastRecovery(s, e);
    StepKeeps(s, e);
    ThresholdStays(After(s, e), es);
    var t := AfterAll(After(s, e), es);
    if t.state == OPEN && ack != t.una {
      AckGrows(t, ack, rwnd);
    }
  }

  /** With no new acknowledgement, exactly the third duplicate enters fast recovery, and until then the window stays. */
  lemma {:induction false} DuplicatesEnter(s: Snd, es: seq<Event>)
    requires SndInv(s) && AllSensible(es) && s.state == OPEN && OnlyDuplicates(es, s.una)
    ensures var (t, n) := (AfterAll(s, es), s.repAck + |es| - Sends(es));
            && t.una == s.una && (t.state == OPEN <==> n <= 2) && (t.state == RCVR <==> 2 < n)
            && (n <= 2 ==> t.repAck == n && t.cwnd == s.cwnd && t.ssthresh == s.ssthresh)
            && (2 < n ==> t.cwnd == AtLeastOne(s.cwnd - 1 - (n - 2) / 2) && t.ssthresh == (s.cwnd + 1) / 2)
    decreases |es|
  {
    if es != [] {
      var (e, t) := (es[0], After(s, es[0]));
      StepKeeps(s, e);
      if e.Ack? {
        DuplicateEffects(s, e.rwnd);
      }
      if t.state == OPEN {
        DuplicatesEnter(t, es[1..]);
      } else {
        DuplicatesDeflate(t, es[1..], s.cwnd - 1);
        DuplicatesKeepThreshold(t, es[1..]);
        SendsAtMost(es[1..]);
      }
    }
  }

  lemma {:induction false} DuplicatesKeepThreshold(s: Snd, es: seq<Event>)
    requires s.state == RCVR && OnlyDuplicates(es, s.una)
    ensures AfterAll(s, es).ssthresh == s.ssthresh
    decreases |es|
  {
    if es != [] {
      DuplicatesKeepThreshold(After(s, es[0]), es[1..]);
    }
  }

  lemma {:induction false} SendsAtMost(es: seq<Event>)
    ensures Sends(es) <= |es|
  {
    if es != [] {
      SendsAtMost(es[1..]);
    }
  }
}
