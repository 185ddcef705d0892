/**
 How the protocol thread and the reading thread of a socket wait for each
 other.  The protocol thread sleeps on `wait_recv` when a segment does not fit;
 the reader sleeps on `wait_read` when there is nothing to read, and after each
 read spins until nobody sleeps on `wait_recv` before it notifies it.
 */
module TcpBlocking {
  import opened RingBuffer
  import opened OfoList
  import opened TcpConstants
  import opened TcpReceiver
  import opened SynchWait

  datatype Protocol =
    | Ready       // at work, or waiting for the next segment
    | Leaving     // has found no room and given up the lock
    | Asleep      // on `wait_recv`
    | Announcing  // has given up the lock, about to look whether the reader sleeps

  datatype App =
    | Outside     // between two looks at the buffer
    | FoundEmpty  // has found nothing and given up the lock
    | Dozing      // on `wait_read`
    | Spinning    // has taken bytes, waits for nobody to sleep on `wait_recv`
    | Through     // about to notify `wait_recv`

  datatype Socket = Socket(rcv: Rcv, recv: Wait, read: Wait, protocol: Protocol, app: App)

  datatype Move =
    | Arrives(segment: Segment)
    | Works
    | Sleeps
    | Wakes
    | Announces
    | Reads(n: nat)
    | Dozes
    | Stirs
    | Passes
    | Notifies

  function InitSocket(isn: nat): Socket {
    Socket(InitRcv(isn), Calm, Calm, Ready, Outside)
  }

  /** The next payload does not fit. */
  predicate NoRoom(r: Rcv) {
    match r.phase
    case Idle => false
    case Storing(x) => Room(r) < |x.payload|
    case Draining(e) => r.later != [] && r.later[0].start <= e && Room(r) < |r.later[0].payload|
  }

  predicate Can(k: Socket, m: Move) {
    match m
    case Arrives(x) =>
      k.protocol == Ready && k.rcv.phase.Idle? && x.payload != [] && !(k.rcv.next < x.start && Lost(k.rcv.later, x))
    case Works => k.protocol == Ready && !k.rcv.phase.Idle?
    case Sleeps => k.protocol == Leaving
    case Wakes => k.protocol == Asleep && k.recv.signalled
    case Announces => k.protocol == Announcing
    case Reads(n) => k.app == Outside
    case Dozes => k.app == FoundEmpty
    case Stirs => k.app == Dozing && k.read.signalled
    case Passes => k.app == Spinning && !k.recv.sleep
    case Notifies => k.app == Through
  }

  function After(k: Socket, m: Move): Socket
    requires Can(k, m)
  {
    match m
    case Arrives(x) => k.(rcv := Arrive(k.rcv, x).0, protocol := if k.rcv.next < x.start then Announcing else Ready)
    case Works =>
      if NoRoom(k.rcv) then k.(read := WakeUp(k.read), protocol := Leaving)
      else
        var r := Proceed(k.rcv).0;
        k.(rcv := r, protocol := if r.phase.Idle? then Announcing else Ready)
    case Sleeps =>
      var (w, blocks) := SleepOn(k.recv);
      k.(recv := w, protocol := if blocks then Asleep else Ready)
    case Wakes => k.(recv := Resume(k.recv), protocol := Ready)
    case Announces => k.(read := if k.read.sleep then WakeUp(k.read) else k.read, protocol := Ready)
    case Reads(n) => if k.rcv.queued == [] then k.(app := FoundEmpty) else k.(rcv := Read(k.rcv, n).0, app := Spinning)
    case Dozes =>
      var (w, blocks) := SleepOn(k.read);
      k.(read := w, app := if blocks then Dozing else Outside)
    case Stirs => k.(read := Resume(k.read), app := Outside)
    case Passes => k.(app := Through)
    case Notifies => k.(recv := WakeUp(k.recv), app := Outside)
  }

  predicate CanAll(k: Socket, ms: seq<Move>)
    decreases |ms|
  {
    ms != [] ==> Can(k, ms[0]) && CanAll(After(k, ms[0]), ms[1..])
  }

  function AfterAll(k: Socket, ms: seq<Move>): Socket
    requires CanAll(k, ms)
    decreases |ms|
  {
    if ms == [] then k else AfterAll(After(k, ms[0]), ms[1..])
  }

  lemma {:induction false} InTwoParts(k: Socket, a: seq<Move>, b: seq<Move>)
    requires CanAll(k, a) && CanAll(AfterAll(k, a), b)
    ensures CanAll(k, a + b) && AfterAll(k, a + b) == AfterAll(AfterAll(k, a), b)
    decreases |a|
  {
    if a == [] {
      assert a + b == b;
    } else {
      InTwoParts(After(k, a[0]), a[1..], b);
      assert (a + b)[1..] == a[1..] + b;
    }
  }

  // ----- What every state satisfies ------------------------------------------

  predicate SocketInv(k: Socket) {
    && Consistent(k.recv, k.protocol == Asleep) && Consistent(k.read, k.app == Dozing)
    && (k.protocol == Leaving || k.protocol == Asleep ==> !k.rcv.phase.Idle?)
    && (k.protocol == Announcing ==> k.rcv.phase.Idle?)
    && ((k.protocol == Leaving || k.protocol == Asleep) && (k.app == FoundEmpty || k.app == Dozing) ==>
          k.read.notified || k.rcv.queued == [])
  }

  lemma MoveKeeps(k: Socket, m: Move)
    requires SocketInv(k) && Can(k, m)
    ensures SocketInv(After(k, m))
  {
  }

  lemma {:induction false} RunKeeps(k: Socket, ms: seq<Move>)
    requires SocketInv(k) && CanAll(k, ms)
    ensures SocketInv(AfterAll(k, ms))
    decreases |ms|
  {
    if ms != [] {
      MoveKeeps(k, ms[0]);
      RunKeeps(After(k, ms[0]), ms[1..]);
    }
  }

  // ----- When the protocol thread sleeps for ever ------------------------------

  /** Asleep without a notification, and no read has got past the spin. */
  predicate Doomed(k: Socket) {
    k.protocol == Asleep && !k.recv.notified && k.app != Through
  }

  /** Nothing the reader does can wake the protocol thread any more. */
  lemma DoomStays(k: Socket, m: Move)
    requires SocketInv(k) && Doomed(k) && Can(k, m)
    ensures Doomed(After(k, m))
    ensures var r := After(k, m).rcv; r.next == k.rcv.next && r.phase == k.rcv.phase && r.later == k.rcv.later
    ensures k.app != Spinning
  {
  }

  /** The read takes its bytes and does not come back: from then on neither thread can move. */
  lemma HungIsFinal(k: Socket, m: Move)
    requires SocketInv(k) && Doomed(k) && k.app == Spinning
    ensures !Can(k, m)
  {
  }

  lemma HungRunIsOver(k: Socket, ms: seq<Move>)
    requires SocketInv(k) && Doomed(k) && k.app == Spinning && CanAll(k, ms)
    ensures ms == []
  {
    if ms != [] {
      HungIsFinal(k, ms[0]);
    }
  }

  /** The number of reads that find bytes. */
  function Takes(k: Socket, ms: seq<Move>): nat
    requires CanAll(k, ms)
    decreases |ms|
  {
    if ms == [] then 0
    else (if ms[0].Reads? && k.rcv.queued != [] then 1 else 0) + Takes(After(k, ms[0]), ms[1..])
  }

  /** Over any run the doom stays, nothing is accepted or acknowledged, and at most one more read takes bytes. */
  lemma {:induction false} DoomIsForever(k: Socket, ms: seq<Move>)
    requires SocketInv(k) && Doomed(k) && CanAll(k, ms)
    ensures var t := AfterAll(k, ms);
            && Doomed(t) && t.rcv.next == k.rcv.next && t.rcv.phase == k.rcv.phase && t.rcv.later == k.rcv.later
            && Takes(k, ms) <= 1
    decreases |ms|
  {
    if ms != [] {
      var t := After(k, ms[0]);
      MoveKeeps(k, ms[0]);
      DoomStays(k, ms[0]);
      if t.app == Spinning {
        HungRunIsOver(t, ms[1..]);
      }
      DoomIsForever(t, ms[1..]);
    }
  }

  /** A sleeping thread that is not doomed will be woken: its waker stays ready whatever else happens. */
  lemma WakingStays(k: Socket, m: Move)
    requires SocketInv(k) && k.protocol == Asleep && !Doomed(k) && Can(k, m)
    ensures Can(k, Wakes) || Can(k, Notifies)
    ensures After(k, m).protocol == Ready || (After(k, m).protocol == Asleep && !Doomed(After(k, m)))
  {
  }

  /** Some run wakes the sleeping thread. */
  ghost predicate CanWake(k: Socket) {
    exists ms :: CanAll(k, ms) && AfterAll(k, ms).protocol != Asleep
  }

  /** Exactly when a protocol thread that waits for room ever looks again. */
  lemma WakesExactly(k: Socket)
    requires SocketInv(k) && k.protocol == Asleep
    ensures CanWake(k) <==> k.recv.notified || k.app == Through
  {
    if k.recv.notified {
      var ms := [Wakes];
      assert CanAll(After(k, Wakes), ms[1..]) && AfterAll(k, ms).protocol == Ready;
    } else if k.app == Through {
      var t := After(k, Notifies);
      var ms := [Notifies, Wakes];
      assert ms[1..] == [Wakes] && CanAll(After(t, Wakes), [Wakes][1..]);
      assert AfterAll(t, [Wakes]).protocol == Ready;
      assert CanAll(k, ms) && AfterAll(k, ms) == AfterAll(t, [Wakes]);
    } else {
      forall ms | CanAll(k, ms)
        ensures AfterAll(k, ms).protocol == Asleep
      {
        DoomIsForever(k, ms);
      }
    }
  }

  // ----- A full buffer hangs -----------------------------------------------------

  function Zeros(n: nat): (s: seq<Byte>)
    ensures |s| == n
  {
    seq(n, i => 0)
  }

  function Packet(isn: nat, k: nat): Segment {
    Segment(isn + k * MSS, Zeros(MSS))
  }

  /** The socket after `k` full packets in order, none of them read. */
  function Filled(isn: nat, k: nat): Socket {
    Socket(Rcv(isn + k * MSS, TCP_DEFAULT_WINDOW - k * MSS, Zeros(k * MSS), [], Idle), Calm, Calm, Ready, Outside)
  }

  function FillMoves(isn: nat, k: nat): seq<Move> {
    if k == 0 then [] else FillMoves(isn, k - 1) + [Arrives(Packet(isn, k - 1)), Works, Works, Announces]
  }

  lemma FillOne(isn: nat, k: nat)
    requires k < 44
    ensures var ms := [Arrives(Packet(isn, k)), Works, Works, Announces];
            CanAll(Filled(isn, k), ms) && AfterAll(Filled(isn, k), ms) == Filled(isn, k + 1)
  {
    var k0 := Filled(isn, k);
    var k1 := After(k0, Arrives(Packet(isn, k)));
    var k2 := After(k1, Works);
    var k3 := After(k2, Works);
    var k4 := After(k3, Announces);
    assert Zeros(k * MSS) + Zeros(MSS) == Zeros((k + 1) * MSS);
    assert k4 == Filled(isn, k + 1);
    FourMoves(k0, Arrives(Packet(isn, k)), Works, Works, Announces);
  }

  lemma FourMoves(k: Socket, a: Move, b: Move, c: Move, d: Move)
    requires Can(k, a) && Can(After(k, a), b) && Can(After(After(k, a), b), c)
               && Can(After(After(After(k, a), b), c), d)
    ensures CanAll(k, [a, b, c, d]) && AfterAll(k, [a, b, c, d]) == After(After(After(After(k, a), b), c), d)
  {
    var k1 := After(k, a);
    var k2 := After(k1, b);
    var k3 := After(k2, c);
    assert [d][1..] == [] && [c, d][1..] == [d] && [b, c, d][1..] == [c, d] && [a, b, c, d][1..] == [b, c, d];
    assert CanAll(After(k3, d), []) && AfterAll(After(k3, d), []) == After(k3, d);
    assert CanAll(k3, [d]) && AfterAll(k3, [d]) == After(k3, d);
    assert CanAll(k2, [c, d]) && AfterAll(k2, [c, d]) == AfterAll(k3, [d]);
    assert CanAll(k1, [b, c, d]) && AfterAll(k1, [b, c, d]) == AfterAll(k2, [c, d]);
  }

  lemma {:induction false} FillUp(isn: nat, k: nat)
    requires k <= 44
    ensures CanAll(InitSocket(isn), FillMoves(isn, k)) && AfterAll(InitSocket(isn), FillMoves(isn, k)) == Filled(isn, k)
  {
    if k == 0 {
      assert Zeros(0) == [];
    } else {
      FillUp(isn, k - 1);
      FillOne(isn, k - 1);
      InTwoParts(InitSocket(isn), FillMoves(isn, k - 1), [Arrives(Packet(isn, k - 1)), Works, Works, Announces]);
    }
  }

  /** The segments that arrive, in order. */
  function Segments(ms: seq<Move>): seq<Segment> {
    if ms == [] then [] else (if ms[0].Arrives? then [ms[0].segment] else []) + Segments(ms[1..])
  }

  lemma {:induction false} SegmentsInTwoParts(a: seq<Move>, b: seq<Move>)
    ensures Segments(a + b) == Segments(a) + Segments(b)
  {
    if a == [] {
      assert a + b == b;
    } else {
      SegmentsInTwoParts(a[1..], b);
      assert (a + b)[1..] == a[1..] + b;
    }
  }

  function Packets(isn: nat, k: nat): seq<Segment> {
    if k == 0 then [] else Packets(isn, k - 1) + [Packet(isn, k - 1)]
  }

  lemma OneArrival(x: Segment, b: Move, c: Move, d: Move)
    requires !b.Arrives? && !c.Arrives? && !d.Arrives?
    ensures Segments([Arrives(x), b, c, d]) == [x]
  {
    assert [d][1..] == [] && [c, d][1..] == [d] && [b, c, d][1..] == [c, d];
    assert [Arrives(x), b, c, d][1..] == [b, c, d];
    assert Segments([]) == [] && Segments([d]) == [] + Segments([d][1..]) && Segments([c, d]) == [] + Segments([d]);
    assert Segments([b, c, d]) == [] + Segments([c, d]);
  }

  lemma {:induction false} FillSegments(isn: nat, k: nat)
    ensures Segments(FillMoves(isn, k)) == Packets(isn, k)
  {
    if k > 0 {
      FillSegments(isn, k - 1);
      OneArrival(Packet(isn, k - 1), Works, Works, Announces);
      SegmentsInTwoParts(FillMoves(isn, k - 1), [Arrives(Packet(isn, k - 1)), Works, Works, Announces]);
    }
  }

  /**
   A reader slower than the sender: the 45th packet does not fit, the protocol
   thread sleeps, the next read never returns.
   */
  lemma FullBufferHangs(isn: nat) returns (ms: seq<Move>)
    ensures CanAll(InitSocket(isn), ms) && Segments(ms) == Packets(isn, 45)
    ensures var k := AfterAll(InitSocket(isn), ms);
            && Doomed(k) && k.app == Spinning && (forall m :: !Can(k, m))
            && k.rcv == Read(Filled(isn, 44).rcv.(phase := Storing(Packet(isn, 44))), 500).0
  {
    FillUp(isn, 44);
    FillSegments(isn, 44);
    var k0 := Filled(isn, 44);
    var x := Packet(isn, 44);
    FourMoves(k0, Arrives(x), Works, Sleeps, Reads(500));
    OneArrival(x, Works, Sleeps, Reads(500));
    var last := [Arrives(x), Works, Sleeps, Reads(500)];
    ms := FillMoves(isn, 44) + last;
    InTwoParts(InitSocket(isn), FillMoves(isn, 44), last);
    SegmentsInTwoParts(FillMoves(isn, 44), last);
  }

  // ----- When the reader sleeps on bytes -------------------------------------------

  /** The reader sleeps without a notification, and so does the protocol thread, unless it waits for a segment. */
  predicate Stranded(k: Socket) {
    && k.app == Dozing && !k.read.notified
    && match k.protocol
       case Ready => k.rcv.phase.Idle?
       case Announcing => false
       case _ => !k.recv.notified
  }

  /** The reader sleeps although there are bytes, and the protocol thread waits for a segment. */
  predicate Overslept(k: Socket) {
    k.app == Dozing && !k.read.notified && k.rcv.queued != [] && k.protocol == Ready && k.rcv.phase.Idle?
  }

  predicate NoArrivals(ms: seq<Move>) {
    forall i :: 0 <= i < |ms| ==> !ms[i].Arrives?
  }

  /** A bound on the moves without an arrival before a sleeping reader goes on. */
  function Patience(k: Socket): nat {
    var work := match k.rcv.phase
      case Idle => 0
      case Storing(_) => |k.rcv.later| + 2
      case Draining(_) => |k.rcv.later| + 1;
    var turn := match k.protocol
      case Ready => if k.rcv.phase.Idle? then 0 else 2
      case Leaving => 1
      case Asleep => 0
      case Announcing => 1;
    4 * work + turn + if k.recv.notified then 3 else 0
  }

  lemma PatienceShrinks(k: Socket, m: Move)
    requires SocketInv(k) && k.app == Dozing && Can(k, m) && !m.Arrives? && !m.Stirs?
    ensures After(k, m).app == Dozing && Patience(After(k, m)) < Patience(k)
    ensures Stranded(k) <==> Stranded(After(k, m))
  {
  }

  lemma StaysInReach(k: Socket, m: Move)
    requires SocketInv(k) && k.app == Dozing && !Stranded(k) && Can(k, m)
    ensures if m.Stirs? then After(k, m).app == Outside else After(k, m).app == Dozing && !Stranded(After(k, m))
  {
  }

  /** Nothing that happens, segments included, takes a sleeping reader that can still be woken out of reach. */
  lemma {:induction false} StirringStays(k: Socket, ms: seq<Move>)
    requires SocketInv(k) && k.app == Dozing && !Stranded(k) && CanAll(k, ms) && Stirs !in ms
    ensures AfterAll(k, ms).app == Dozing && !Stranded(AfterAll(k, ms))
    decreases |ms|
  {
    if ms != [] {
      MoveKeeps(k, ms[0]);
      StaysInReach(k, ms[0]);
      StirringStays(After(k, ms[0]), ms[1..]);
    }
  }

  /** As long as the reader is not stranded, some thread can go on without a new segment. */
  lemma NextWithoutArrival(k: Socket) returns (m: Move)
    requires SocketInv(k) && k.app == Dozing && !Stranded(k)
    ensures !m.Arrives? && Can(k, m)
  {
    m := if k.read.signalled then Stirs
         else match k.protocol
              case Ready => Works
              case Leaving => Sleeps
              case Asleep => Wakes
              case Announcing => Announces;
  }

  /** Some run wakes the reader without a new segment. */
  ghost predicate StirsAlone(k: Socket) {
    exists ms :: NoArrivals(ms) && CanAll(k, ms) && AfterAll(k, ms).app != Dozing
  }

  lemma {:induction false} RunToStir(k: Socket) returns (ms: seq<Move>)
    requires SocketInv(k) && k.app == Dozing && !Stranded(k)
    ensures NoArrivals(ms) && CanAll(k, ms) && AfterAll(k, ms).app != Dozing
    decreases Patience(k)
  {
    var m := NextWithoutArrival(k);
    var t := After(k, m);
    var rest := [];
    if !m.Stirs? {
      MoveKeeps(k, m);
      PatienceShrinks(k, m);
      rest := RunToStir(t);
    }
    ms := [m] + rest;
    assert ms[1..] == rest;
  }

  lemma {:induction false} StrandedStays(k: Socket, ms: seq<Move>)
    requires SocketInv(k) && Stranded(k) && NoArrivals(ms) && CanAll(k, ms)
    ensures Stranded(AfterAll(k, ms))
    decreases |ms|
  {
    if ms != [] {
      MoveKeeps(k, ms[0]);
      PatienceShrinks(k, ms[0]);
      StrandedStays(After(k, ms[0]), ms[1..]);
    }
  }

  /** Exactly when a sleeping reader can go on without a new segment; on bytes, exactly when it has not overslept. */
  lemma StirsExactly(k: Socket)
    requires SocketInv(k) && k.app == Dozing
    ensures StirsAlone(k) <==> !Stranded(k)
    ensures k.rcv.queued != [] ==> (StirsAlone(k) <==> !Overslept(k))
  {
    if Stranded(k) {
      forall ms | NoArrivals(ms) && CanAll(k, ms)
        ensures AfterAll(k, ms).app == Dozing
      {
        StrandedStays(k, ms);
      }
    } else {
      var ms := RunToStir(k);
    }
  }

  /**
   Then it does go on: whatever the threads do without a new segment, after a
   bounded number of moves the only one left is that the reader wakes.
   */
  lemma {:induction false} StirsSoon(k: Socket, ms: seq<Move>)
    requires SocketInv(k) && k.app == Dozing && !Stranded(k) && NoArrivals(ms) && Stirs !in ms && CanAll(k, ms)
    ensures |ms| <= Patience(k)
    ensures exists m: Move :: !m.Arrives? && Can(AfterAll(k, ms), m)
    decreases |ms|
  {
    if ms == [] {
      var m := NextWithoutArrival(k);
    } else {
      MoveKeeps(k, ms[0]);
      PatienceShrinks(k, ms[0]);
      StirsSoon(After(k, ms[0]), ms[1..]);
    }
  }

  /**
   Going to sleep on bytes needs a new segment to end exactly without a
   notification and with the protocol thread waiting for one.
   */
  lemma DozesExactly(k: Socket)
    requires SocketInv(k) && Can(k, Dozes)
    ensures var t := After(k, Dozes);
            && (Overslept(t) <==> !k.read.notified && k.rcv.queued != [] && k.protocol == Ready && k.rcv.phase.Idle?)
            && (k.rcv.queued != [] ==> (Overslept(t) <==> t.app == Dozing && !StirsAlone(t)))
  {
    MoveKeeps(k, Dozes);
    if After(k, Dozes).app == Dozing {
      StirsExactly(After(k, Dozes));
    }
  }

  /**
   Out of that state only a segment leads, and exactly one that is not old: the
   reader then goes on without a further one.
   */
  lemma NewSegmentStirs(k: Socket, m: Move)
    requires SocketInv(k) && Overslept(k) && Can(k, m)
    ensures m.Arrives? && (StirsAlone(After(k, m)) <==> k.rcv.next <= m.segment.start)
    ensures m.segment.start < k.rcv.next ==> After(k, m) == k
  {
    MoveKeeps(k, m);
    StirsExactly(After(k, m));
  }

  /** The announcement comes between the reader's look at the empty buffer and its sleep. */
  lemma ReaderOversleeps(isn: nat) returns (ms: seq<Move>)
    ensures CanAll(InitSocket(isn), ms) && Overslept(AfterAll(InitSocket(isn), ms))
    ensures AfterAll(InitSocket(isn), ms).rcv.queued == [1]
  {
    var x := Arrives(Segment(isn, [1]));
    var k0 := InitSocket(isn);
    FourMoves(k0, Reads(500), x, Works, Works);
    var k4 := AfterAll(k0, [Reads(500), x, Works, Works]);
    var k5 := After(k4, Announces);
    assert [Dozes][1..] == [] && [Announces, Dozes][1..] == [Dozes];
    assert CanAll(k5, [Dozes]) && AfterAll(k5, [Dozes]) == After(k5, Dozes);
    assert CanAll(k4, [Announces, Dozes]) && AfterAll(k4, [Announces, Dozes]) == AfterAll(k5, [Dozes]);
    InTwoParts(k0, [Reads(500), x, Works, Works], [Announces, Dozes]);
    ms := [Reads(500), x, Works, Works] + [Announces, Dozes];
  }
}
