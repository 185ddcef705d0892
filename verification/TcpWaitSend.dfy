/**
 How a writing thread and the protocol thread wait for each other.  After each
 packet the writer looks at the window, and sleeps on `wait_send` while it is
 too small; the protocol thread notifies it, or does not.
 */
module TcpWaitSend {
  import opened RingBuffer
  import opened TcpConstants
  import opened TcpSender
  import opened TcpSenderSafety
  import opened TcpSocket
  import opened SynchWait

  datatype Writer =
    | Free     // between two packets
    | Looking  // about to look at the window
    | Closed   // has found it too small and given up the lock
    | Asleep   // on `wait_send`

  datatype Protocol =
    | Ready   // waiting for the next segment
    | Acked   // has handled an acknowledgement, about to look at the congestion state
    | Stored  // has taken a data segment, about to look at it and whether the writer sleeps
    | Hung    // waits for room that never comes

  datatype Conn = Conn(snd: Snd, send: Wait, writer: Writer, protocol: Protocol)

  /**
   A data segment below `rcv_nxt` is old: it is answered at once, and no one
   looks for a sleeper.  `ends` says whether the wait for room, if there is one,
   comes to an end; `TcpBlocking` says when it does.
   */
  datatype Move =
    | Sends(payload: seq<Byte>)
    | Looks
    | Dozes
    | Wakes
    | Scans
    | AckArrives(ack: nat, rwnd: nat)
    | DataArrives(ends: bool)
    | DataWithAckArrives(ack: nat, rwnd: nat, ends: bool)
    | OldDataArrives
    | OldDataWithAckArrives(ack: nat, rwnd: nat)
    | Tells

  function InitConn(isn: nat, wnd: nat, adv: nat): Conn {
    Conn(InitSnd(isn, wnd, adv), Calm, Free, Ready)
  }

  predicate Arrival(m: Move) {
    m.AckArrives? || m.DataArrives? || m.DataWithAckArrives? || m.OldDataArrives? || m.OldDataWithAckArrives?
  }

  predicate Can(k: Conn, m: Move) {
    match m
    case Sends(payload) => k.writer == Free && payload != []
    case Looks => k.writer == Looking
    case Dozes => k.writer == Closed
    case Wakes => k.writer == Asleep && k.send.signalled
    case Scans => true
    case Tells => k.protocol == Acked || k.protocol == Stored
    case _ => k.protocol == Ready
  }

  function Acknowledged(k: Conn, ack: nat, rwnd: nat): Conn {
    k.(snd := ProcessAck(k.snd, ack, rwnd).0, send := if Reopens(k.snd, ack, rwnd) then WakeUp(k.send) else k.send)
  }

  function After(k: Conn, m: Move): Conn
    requires Can(k, m)
  {
    match m
    case Sends(payload) => k.(snd := SendPacket(k.snd, payload).0, writer := Looking)
    case Looks => k.(writer := if Blocked(k.snd) then Closed else Free)
    case Dozes =>
      var (w, blocks) := SleepOn(k.send);
      k.(send := w, writer := if blocks then Asleep else Looking)
    case Wakes => k.(send := Resume(k.send), writer := Looking)
    case Scans => k.(snd := Scan(k.snd).0)
    case AckArrives(ack, rwnd) => Acknowledged(k, ack, rwnd).(protocol := Acked)
    case DataArrives(ends) => k.(protocol := if ends then Stored else Hung)
    case DataWithAckArrives(ack, rwnd, ends) =>
      Acknowledged(k, ack, rwnd).(protocol := if ends then Stored else Hung)
    case OldDataArrives => k
    case OldDataWithAckArrives(ack, rwnd) => Acknowledged(k, ack, rwnd)
    case Tells =>
      var tells := k.snd.state == OPEN && (k.protocol == Acked || k.send.sleep);
      k.(send := if tells then WakeUp(k.send) else k.send, protocol := Ready)
  }

  predicate CanAll(k: Conn, ms: seq<Move>)
    decreases |ms|
  {
    ms != [] ==> Can(k, ms[0]) && CanAll(After(k, ms[0]), ms[1..])
  }

  function AfterAll(k: Conn, ms: seq<Move>): Conn
    requires CanAll(k, ms)
    decreases |ms|
  {
    if ms == [] then k else AfterAll(After(k, ms[0]), ms[1..])
  }

  lemma {:induction false} InTwoParts(k: Conn, a: seq<Move>, b: seq<Move>)
    requires CanAll(k, a) && CanAll(AfterAll(k, a), b)
    ensures CanAll(k, a + b) && AfterAll(k, a + b) == AfterAll(AfterAll(k, a), b)
    decreases |a|
  {
    if a == [] {
      assert a + b == b;
    } else {
      InTwoParts(After(k, a[0]), a[1..], b);
      assert (a + b)[1..] == a[1..] + b;
    }
  }

  lemma OneMove(k: Conn, a: Move)
    requires Can(k, a)
    ensures CanAll(k, [a]) && AfterAll(k, [a]) == After(k, a)
  {
    assert [a][1..] == [];
    assert CanAll(After(k, a), []) && AfterAll(After(k, a), []) == After(k, a);
  }

  lemma TwoMoves(k: Conn, a: Move, b: Move)
    requires Can(k, a) && Can(After(k, a), b)
    ensures CanAll(k, [a, b]) && AfterAll(k, [a, b]) == After(After(k, a), b)
  {
    OneMove(After(k, a), b);
    assert [a, b][1..] == [b];
  }

  lemma ThreeMoves(k: Conn, a: Move, b: Move, c: Move)
    requires Can(k, a) && Can(After(k, a), b) && Can(After(After(k, a), b), c)
    ensures CanAll(k, [a, b, c]) && AfterAll(k, [a, b, c]) == After(After(After(k, a), b), c)
  {
    TwoMoves(After(k, a), b, c);
    assert [a, b, c][1..] == [b, c];
  }

  // ----- What every state satisfies ------------------------------------------

  predicate ConnInv(k: Conn) {
    SndInv(k.snd) && Consistent(k.send, k.writer == Asleep)
  }

  lemma MoveKeeps(k: Conn, m: Move)
    requires ConnInv(k) && Can(k, m)
    ensures ConnInv(After(k, m))
  {
    match m
    case Sends(payload) => StepKeeps(k.snd, Data(payload));
    case Scans => ScanKeeps(k.snd);
    case AckArrives(ack, rwnd) => AckKeeps(k.snd, ack, rwnd);
    case DataWithAckArrives(ack, rwnd, _) => AckKeeps(k.snd, ack, rwnd);
    case OldDataWithAckArrives(ack, rwnd) => AckKeeps(k.snd, ack, rwnd);
    case _ =>
  }

  // ----- The acknowledgement that wakes a writer ---------------------------------

  /** The congestion state after an acknowledgement, as it was before. */
  predicate EndsOpen(s: Snd, ack: nat) {
    if ack == s.una then s.state == OPEN && s.repAck < 2 else s.state == OPEN || s.recovery <= ack
  }

  /** An acknowledgement of what is outstanding finds a window whose low 16 bits are 0. */
  predicate MovesZero(s: Snd, ack: nat) {
    s.una <= ack <= s.nxt && s.wnd % 0x1_0000 == 0
  }

  lemma EndsOpenExactly(s: Snd, ack: nat, rwnd: nat)
    requires SndInv(s)
    ensures ProcessAck(s, ack, rwnd).0.state == OPEN <==> EndsOpen(s, ack)
    ensures Reopens(s, ack, rwnd) <==> MovesZero(s, ack)
  {
    ChainedOrder(s.queue, s.una, s.nxt);
    if ack != s.una {
      var n := NewAckShape(s, ack, rwnd);
    }
  }

  predicate NoArrivals(ms: seq<Move>) {
    forall i :: 0 <= i < |ms| ==> !Arrival(ms[i])
  }

  /** Some run wakes the writer without another segment. */
  ghost predicate WakesAlone(k: Conn) {
    exists ms :: NoArrivals(ms) && CanAll(k, ms) && AfterAll(k, ms).writer != Asleep
  }

  /** The protocol thread is about to notify a sleeping writer. */
  predicate Telling(k: Conn) {
    (k.protocol == Acked || k.protocol == Stored) && k.snd.state == OPEN
  }

  /** Asleep, not notified, and the protocol thread not about to do it. */
  predicate Waits(k: Conn) {
    k.writer == Asleep && !k.send.notified && !Telling(k)
  }

  lemma {:induction false} WaitsOn(k: Conn, ms: seq<Move>)
    requires ConnInv(k) && Waits(k) && NoArrivals(ms) && CanAll(k, ms)
    ensures Waits(AfterAll(k, ms))
    decreases |ms|
  {
    if ms != [] {
      MoveKeeps(k, ms[0]);
      if ms[0].Scans? {
        ScanFromTicks(k.snd, 0);
      }
      WaitsOn(After(k, ms[0]), ms[1..]);
    }
  }

  /** Timers never wake a writer: without another segment exactly a notification does, or one that is under way. */
  lemma WakesAloneExactly(k: Conn)
    requires ConnInv(k) && k.writer == Asleep
    ensures WakesAlone(k) <==> k.send.notified || Telling(k)
  {
    if Waits(k) {
      forall ms | NoArrivals(ms) && CanAll(k, ms)
        ensures AfterAll(k, ms).writer == Asleep
      {
        WaitsOn(k, ms);
      }
    } else if k.send.notified {
      OneMove(k, Wakes);
    } else {
      TwoMoves(k, Tells, Wakes);
    }
  }

  /** Whether the segment of `m` wakes a writer that is asleep. */
  predicate Rouses(s: Snd, m: Move) {
    match m
    case AckArrives(ack, _) => EndsOpen(s, ack) || MovesZero(s, ack)
    case DataArrives(ends) => ends && s.state == OPEN
    case DataWithAckArrives(ack, _, ends) => (ends && EndsOpen(s, ack)) || MovesZero(s, ack)
    case OldDataWithAckArrives(ack, _) => MovesZero(s, ack)
    case _ => false
  }

  /** Exactly the segments that let a sleeping writer go on without a further one. */
  lemma RousesExactly(k: Conn, m: Move)
    requires ConnInv(k) && k.writer == Asleep && !k.send.notified && Arrival(m) && Can(k, m)
    ensures WakesAlone(After(k, m)) <==> Rouses(k.snd, m)
  {
    MoveKeeps(k, m);
    WakesAloneExactly(After(k, m));
    match m
    case AckArrives(ack, rwnd) => EndsOpenExactly(k.snd, ack, rwnd);
    case DataWithAckArrives(ack, rwnd, _) => EndsOpenExactly(k.snd, ack, rwnd);
    case OldDataWithAckArrives(ack, rwnd) => EndsOpenExactly(k.snd, ack, rwnd);
    case _ =>
  }

  /** The events that end a sleep of `TcpSocket.Write` are the acknowledgements that wake a writer here. */
  lemma NotifiesExactly(s: Snd, e: Event)
    requires SndInv(s)
    ensures Notifies(s, e) <==> e.Ack? && Rouses(s, AckArrives(e.ack, e.rwnd))
  {
    if e.Ack? {
      EndsOpenExactly(s, e.ack, e.rwnd);
    }
  }

  /** The acknowledgement of all that is outstanding wakes a writer, in any congestion state. */
  lemma LastAckWakes(k: Conn, rwnd: nat)
    requires ConnInv(k) && k.writer == Asleep && k.protocol == Ready && k.snd.queue != []
    ensures var t := After(k, AckArrives(k.snd.nxt, rwnd)); t.snd.queue == [] && t.snd.state == OPEN && WakesAlone(t)
  {
    EmptiedIsOpen(k.snd, k.snd.nxt, rwnd);
    MoveKeeps(k, AckArrives(k.snd.nxt, rwnd));
    WakesAloneExactly(After(k, AckArrives(k.snd.nxt, rwnd)));
  }

  /** An acknowledgement empties the queue exactly if it reaches `nxt`, and then the state is OPEN. */
  lemma EmptiedIsOpen(s: Snd, ack: nat, rwnd: nat)
    requires SndInv(s) && s.queue != []
    ensures ProcessAck(s, ack, rwnd).0.queue == [] <==> s.nxt <= ack
    ensures s.nxt <= ack ==> ProcessAck(s, ack, rwnd).0.state == OPEN
  {
    ChainedOrder(s.queue, s.una, s.nxt);
    if ack != s.una {
      var n := NewAckShape(s, ack, rwnd);
    }
  }

  // ----- A writer with nothing outstanding -----------------------------------------

  /** On its way to sleep, or asleep, with nothing outstanding and no notification under way. */
  predicate Starved(k: Conn) {
    && (k.writer == Closed || k.writer == Asleep) && !k.send.notified
    && k.snd.queue == [] && !Telling(k)
  }

  lemma EmptyScan(s: Snd)
    ensures Scan(s).0.queue == [] <==> s.queue == []
    ensures s.queue == [] ==> Scan(s).0 == s
  {
    ScanFromTicks(s, 0);
  }

  /** The protocol thread looks for a sleeper before the writer sleeps, with nothing outstanding. */
  predicate LooksTooEarly(k: Conn, m: Move) {
    m.Tells? && k.protocol == Stored && k.writer == Closed && !k.send.notified && k.snd.queue == []
  }

  /**
   A data segment that is old, or never stored, acknowledges all that is
   outstanding, and does not move a window of 0.
   */
  predicate EmptiedUntold(k: Conn, m: Move) {
    && (m.OldDataWithAckArrives? || (m.DataWithAckArrives? && !m.ends))
    && (k.writer == Closed || k.writer == Asleep) && !k.send.notified
    && k.snd.nxt <= m.ack && !(m.ack == k.snd.nxt && k.snd.wnd % 0x1_0000 == 0)
  }

  /** A writer starves in exactly two ways, both of which need a data segment with the last acknowledgement. */
  lemma StarvesExactly(k: Conn, m: Move)
    requires ConnInv(k) && !Starved(k) && Can(k, m)
    ensures Starved(After(k, m)) <==> LooksTooEarly(k, m) || EmptiedUntold(k, m)
  {
    match m
    case Scans => EmptyScan(k.snd);
    case AckArrives(ack, rwnd) => AckOnQueue(k.snd, ack, rwnd);
    case DataWithAckArrives(ack, rwnd, _) => AckOnQueue(k.snd, ack, rwnd);
    case OldDataWithAckArrives(ack, rwnd) => AckOnQueue(k.snd, ack, rwnd);
    case _ =>
  }

  lemma AckOnQueue(s: Snd, ack: nat, rwnd: nat)
    requires SndInv(s)
    ensures var t := ProcessAck(s, ack, rwnd).0;
            && (s.queue != [] ==> (t.queue == [] <==> s.nxt <= ack) && (t.queue == [] ==> t.state == OPEN))
            && s.una <= s.nxt && (Reopens(s, ack, rwnd) <==> MovesZero(s, ack))
  {
    EndsOpenExactly(s, ack, rwnd);
    ChainedOrder(s.queue, s.una, s.nxt);
    if s.queue != [] {
      EmptiedIsOpen(s, ack, rwnd);
    }
  }

  predicate NoDataWithAck(ms: seq<Move>) {
    forall i :: 0 <= i < |ms| ==> !ms[i].DataWithAckArrives? && !ms[i].OldDataWithAckArrives?
  }

  /** Who sleeps without a notification has something outstanding, or is about to be notified. */
  predicate Backed(k: Conn) {
    (k.writer == Closed || k.writer == Asleep) && !k.send.notified ==>
      k.snd.queue != [] || (k.protocol == Acked && k.snd.state == OPEN)
  }

  lemma BackedStays(k: Conn, m: Move)
    requires ConnInv(k) && Backed(k) && Can(k, m) && !m.DataWithAckArrives? && !m.OldDataWithAckArrives?
    ensures Backed(After(k, m))
  {
    match m
    case Scans => EmptyScan(k.snd);
    case AckArrives(ack, rwnd) => AckOnQueue(k.snd, ack, rwnd);
    case _ =>
  }

  /** The data segments of this program carry no acknowledgement, and then no writer ever starves. */
  lemma {:induction false} NeverStarves(k: Conn, ms: seq<Move>)
    requires ConnInv(k) && Backed(k) && CanAll(k, ms) && NoDataWithAck(ms)
    ensures var t := AfterAll(k, ms); ConnInv(t) && Backed(t) && !Starved(t)
    decreases |ms|
  {
    if ms != [] {
      MoveKeeps(k, ms[0]);
      BackedStays(k, ms[0]);
      NeverStarves(After(k, ms[0]), ms[1..]);
    }
  }

  lemma InitBacked(isn: nat, wnd: nat, adv: nat)
    ensures ConnInv(InitConn(isn, wnd, adv)) && Backed(InitConn(isn, wnd, adv))
  {
  }

  /** The acknowledgement of everything comes with data, and is handled before the writer sleeps. */
  lemma MissesTheLast(k: Conn, rwnd: nat)
    requires ConnInv(k) && k.writer == Closed && k.protocol == Ready && k.send == Calm
    requires k.snd.queue != [] && k.snd.wnd % 0x1_0000 != 0
    ensures var m := DataWithAckArrives(k.snd.nxt, rwnd, true);
            var t := After(After(After(k, m), Tells), Dozes);
            && Starved(t) && t.writer == Asleep && t.snd.una == t.snd.nxt && !Blocked(t.snd)
  {
    MoveKeeps(k, DataWithAckArrives(k.snd.nxt, rwnd, true));
    EmptiedIsOpen(k.snd, k.snd.nxt, rwnd);
    EndsOpenExactly(k.snd, k.snd.nxt, rwnd);
  }

  /** With a peer that acknowledges in its data segments, the writer goes to sleep behind the last notification. */
  lemma WriterStarves(isn: nat, adv: nat) returns (ms: seq<Move>)
    ensures CanAll(InitConn(isn, 2000, adv), ms)
    ensures var t := AfterAll(InitConn(isn, 2000, adv), ms);
            Starved(t) && t.writer == Asleep && t.snd.una == t.snd.nxt && !Blocked(t.snd)
  {
    var data: seq<Byte> := seq(MSS, i => 0);
    var k0 := InitConn(isn, 2000, adv);
    TwoMoves(k0, Sends(data), Looks);
    var k2 := AfterAll(k0, [Sends(data), Looks]);
    InitBacked(isn, 2000, adv);
    MoveKeeps(k0, Sends(data));
    var m := DataWithAckArrives(isn + MSS, 65535, true);
    MissesTheLast(k2, 65535);
    ThreeMoves(k2, m, Tells, Dozes);
    ms := [Sends(data), Looks] + [m, Tells, Dozes];
    InTwoParts(k0, [Sends(data), Looks], [m, Tells, Dozes]);
  }

  /** The same when the writer already sleeps and the peer repeats a data segment. */
  lemma SleeperStarves(isn: nat, adv: nat) returns (ms: seq<Move>)
    ensures CanAll(InitConn(isn, 2000, adv), ms)
    ensures var t := AfterAll(InitConn(isn, 2000, adv), ms);
            && t.writer == Asleep && Starved(t) && !WakesAlone(t) && t.snd.una == t.snd.nxt && !Blocked(t.snd)
    ensures ms[|ms| - 1] == OldDataWithAckArrives(isn + MSS, 65535)
  {
    var data: seq<Byte> := seq(MSS, i => 0);
    var k0 := InitConn(isn, 2000, adv);
    ThreeMoves(k0, Sends(data), Looks, Dozes);
    var k3 := AfterAll(k0, [Sends(data), Looks, Dozes]);
    InitBacked(isn, 2000, adv);
    MoveKeeps(k0, Sends(data));
    var m := OldDataWithAckArrives(isn + MSS, 65535);
    MoveKeeps(k3, m);
    StarvesExactly(k3, m);
    OneMove(k3, m);
    EmptiedLeavesOpen(k3.snd, 65535);
    WakesAloneExactly(After(k3, m));
    ms := [Sends(data), Looks, Dozes] + [m];
    InTwoParts(k0, [Sends(data), Looks, Dozes], [m]);
  }

  lemma EmptiedLeavesOpen(s: Snd, rwnd: nat)
    requires SndInv(s) && s.queue != []
    ensures var t := ProcessAck(s, s.nxt, rwnd).0; t.una == t.nxt == s.nxt && !Blocked(t)
  {
    AckKeeps(s, s.nxt, rwnd);
    EmptiedIsOpen(s, s.nxt, rwnd);
    ChainedOrder(s.queue, s.una, s.nxt);
    var n := NewAckShape(s, s.nxt, rwnd);
  }
}
