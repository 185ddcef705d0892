/**
 When a receiver comes to wait for room.  Every acknowledgement tells a right
 edge, its number plus its window; a sender that writes nothing past an edge it
 has been told never makes the receiver wait.  Once more is written than the
 buffer can take, it can.
 */
module TcpRoom {
  import opened OfoList
  import opened TcpConstants
  import opened TcpReceiver
  import opened TcpEndToEnd
  import B = TcpBlocking

  /** All that is written and not read fits into the receive buffer. */
  predicate WithinRoom(y: Sys) {
    |y.written| <= |y.got| + TCP_DEFAULT_WINDOW
  }

  /** How full the buffer is, and how much of a sent segment can still come. */
  lemma QueuedIs(isn: nat, y: Sys)
    requires SysInv(isn, y)
    ensures |y.rcv.queued| == Reached(y.rcv) - isn - |y.got|
    ensures forall x :: IsSent(y.sent, x) ==> x.payload != [] && SeqEnd(x) <= isn + |y.written|
  {
    forall x | IsSent(y.sent, x)
      ensures x.payload != [] && SeqEnd(x) <= isn + |y.written|
    {
      SentSlice(isn, y.written, y.sent, x);
    }
  }

  lemma RoomWithin(isn: nat, y: Sys)
    requires SysInv(isn, y) && WithinRoom(y)
    ensures !B.NoRoom(y.rcv)
  {
    QueuedIs(isn, y);
  }

  // ----- The edges a sender is told ----------------------------------------------

  /** No acknowledgement tells more than the bytes read so far allow. */
  ghost predicate EdgesOk(isn: nat, y: Sys) {
    forall k :: 0 <= k < |y.acks| ==> y.acks[k].ack + y.acks[k].rwnd <= isn + |y.got| + TCP_DEFAULT_WINDOW
  }

  /** An acknowledgement tells exactly that when it is sent. */
  lemma NewEdge(isn: nat, y: Sys)
    requires SysInv(isn, y) && y.rcv.phase.Idle?
    ensures y.rcv.next + y.rcv.wnd % 0x1_0000 == isn + |y.got| + TCP_DEFAULT_WINDOW
  {
    QueuedIs(isn, y);
  }

  /** An acknowledgement is sent by an idle receiver, and tells its window. */
  predicate Tells(y: Sys, z: Sys) {
    z.acks == y.acks || (z.rcv.phase.Idle? && z.acks == y.acks + [AckMessage(z.rcv.next, z.rcv.wnd % 0x1_0000)])
  }

  lemma StepTells(y: Sys, e: Step)
    requires Enabled(y, e)
    ensures Tells(y, SysAfter(y, e))
  {
  }

  lemma EdgesGrow(isn: nat, y: Sys, z: Sys)
    requires EdgesOk(isn, y) && SysInv(isn, z) && Tells(y, z) && |y.got| <= |z.got|
    ensures EdgesOk(isn, z)
  {
    if z.rcv.phase.Idle? {
      NewEdge(isn, z);
    }
  }

  lemma StepEdges(isn: nat, y: Sys, e: Step)
    requires SysInv(isn, y) && EdgesOk(isn, y) && Enabled(y, e)
    ensures EdgesOk(isn, SysAfter(y, e))
  {
    StepKeepsSys(isn, y, e);
    StepGrows(isn, y, e);
    StepTells(y, e);
    EdgesGrow(isn, y, SysAfter(y, e));
  }

  lemma {:induction false} RunEdges(run: seq<Sys>, acts: seq<Step>, isn: nat, wnd: nat, adv: nat, i: nat)
    requires IsRun(run, acts, isn, wnd, adv) && i <= |acts|
    ensures EdgesOk(isn, run[i])
  {
    if i > 0 {
      RunEdges(run, acts, isn, wnd, adv, i - 1);
      RunSysInv(run, acts, isn, wnd, adv, i - 1);
      assert StepAt(run, acts, i - 1);
      StepEdges(isn, run[i - 1], acts[i - 1]);
    }
  }

  /** Before step `i` the sender has been told `edge`: in the handshake, or by an acknowledgement that has arrived. */
  ghost predicate Told(run: seq<Sys>, acts: seq<Step>, isn: nat, i: nat, edge: nat)
    requires |run| == |acts| + 1 && i <= |acts|
  {
    || edge == isn + TCP_DEFAULT_WINDOW
    || exists j :: 0 <= j < i && acts[j].AckArrives? && acts[j].k < |run[j].acks|
             && edge == run[j].acks[acts[j].k].ack + run[j].acks[acts[j].k].rwnd
  }

  ghost predicate WritesWithin(run: seq<Sys>, acts: seq<Step>, isn: nat, i: nat)
    requires |run| == |acts| + 1 && i < |acts|
  {
    acts[i].Writes? ==> exists edge :: Told(run, acts, isn, i, edge) && isn + |run[i].written| + |acts[i].data| <= edge
  }

  /** No write passes the edges told so far. */
  ghost predicate KeepsEdges(run: seq<Sys>, acts: seq<Step>, isn: nat)
    requires |run| == |acts| + 1
  {
    forall i {:trigger WritesWithin(run, acts, isn, i)} :: 0 <= i < |acts| ==> WritesWithin(run, acts, isn, i)
  }

  lemma ToldIsRoom(run: seq<Sys>, acts: seq<Step>, isn: nat, wnd: nat, adv: nat, i: nat, edge: nat)
    requires IsRun(run, acts, isn, wnd, adv) && i <= |acts| && Told(run, acts, isn, i, edge)
    ensures edge <= isn + |run[i].got| + TCP_DEFAULT_WINDOW
  {
    if edge != isn + TCP_DEFAULT_WINDOW {
      var j :| 0 <= j < i && acts[j].AckArrives? && acts[j].k < |run[j].acks|
               && edge == run[j].acks[acts[j].k].ack + run[j].acks[acts[j].k].rwnd;
      RunEdges(run, acts, isn, wnd, adv, j);
      NothingIsTakenBack(run, acts, isn, wnd, adv, j, i);
    }
  }

  lemma {:induction false} KeepsWithin(run: seq<Sys>, acts: seq<Step>, isn: nat, wnd: nat, adv: nat, i: nat)
    requires IsRun(run, acts, isn, wnd, adv) && KeepsEdges(run, acts, isn) && i <= |acts|
    ensures WithinRoom(run[i])
  {
    if i > 0 {
      var m := i - 1;
      KeepsWithin(run, acts, isn, wnd, adv, m);
      RunSysInv(run, acts, isn, wnd, adv, m);
      RunStep(run, acts, isn, wnd, adv, m);
      assert StepAt(run, acts, m) && WritesWithin(run, acts, isn, m);
      if acts[m].Writes? {
        var edge :| Told(run, acts, isn, m, edge) && isn + |run[m].written| + |acts[m].data| <= edge;
        ToldIsRoom(run, acts, isn, wnd, adv, m, edge);
      }
    }
  }

  /** Over any run of a sender that keeps the edges it is told, the receiver never has to wait for room. */
  lemma NeverWaitsForRoom(run: seq<Sys>, acts: seq<Step>, isn: nat, wnd: nat, adv: nat, i: nat)
    requires IsRun(run, acts, isn, wnd, adv) && KeepsEdges(run, acts, isn) && i <= |acts|
    ensures !B.NoRoom(run[i].rcv)
  {
    KeepsWithin(run, acts, isn, wnd, adv, i);
    RunSysInv(run, acts, isn, wnd, adv, i);
    RoomWithin(isn, run[i]);
  }

  // ----- Exactly when the receiver can be made to wait ------------------------------

  /** Data arrives and is stored, nothing is written or read. */
  predicate Delivers(y: Sys, es: seq<Step>)
    decreases |es|
  {
    es != [] ==> (es[0].DataArrives? || es[0].Proceeds?) && Enabled(y, es[0]) && Delivers(SysAfter(y, es[0]), es[1..])
  }

  function Delivered(y: Sys, es: seq<Step>): Sys
    requires Delivers(y, es)
    decreases |es|
  {
    if es == [] then y else Delivered(SysAfter(y, es[0]), es[1..])
  }

  /** Some order of arrival makes the receiver wait for room before anything is read. */
  ghost predicate CanFill(y: Sys) {
    exists es :: Delivers(y, es) && B.NoRoom(Delivered(y, es).rcv)
  }

  lemma {:induction false} DeliveredWithin(isn: nat, y: Sys, es: seq<Step>)
    requires SysInv(isn, y) && Delivers(y, es) && WithinRoom(y)
    ensures SysInv(isn, Delivered(y, es)) && WithinRoom(Delivered(y, es))
    decreases |es|
  {
    if es != [] {
      StepKeepsSys(isn, y, es[0]);
      DeliveredWithin(isn, SysAfter(y, es[0]), es[1..]);
    }
  }

  /** Every packet ever sent is on the wire. */
  ghost predicate OnWire(y: Sys) {
    forall i :: 0 <= i < |y.sent| ==> y.sent[i].segment in y.wire
  }

  lemma {:induction false} RunOnWire(run: seq<Sys>, acts: seq<Step>, isn: nat, wnd: nat, adv: nat, i: nat)
    requires IsRun(run, acts, isn, wnd, adv) && i <= |acts|
    ensures OnWire(run[i])
  {
    if i > 0 {
      RunOnWire(run, acts, isn, wnd, adv, i - 1);
      assert StepAt(run, acts, i - 1);
    }
  }

  /** The packet an idle receiver waits for, on the wire. */
  lemma NextOnWire(isn: nat, y: Sys) returns (k: nat)
    requires SysInv(isn, y) && OnWire(y) && y.rcv.phase.Idle? && y.rcv.next < isn + |y.written|
    ensures k < |y.wire| && y.wire[k].start == y.rcv.next
  {
    var j := PacketAt(y.sent, isn, isn + |y.written|, y.rcv.next);
    k :| 0 <= k < |y.wire| && y.wire[k] == y.sent[j].segment;
  }

  function PhaseRank(r: Rcv): nat {
    match r.phase
    case Storing(_) => 0
    case Idle => 1
    case Draining(_) => 2
  }

  /** The step that brings the receiver nearer to a full buffer. */
  lemma NextFilling(isn: nat, y: Sys) returns (e: Step)
    requires SysInv(isn, y) && OnWire(y) && !WithinRoom(y) && !B.NoRoom(y.rcv)
    ensures (e.DataArrives? || e.Proceeds?) && Enabled(y, e)
    ensures var z := SysAfter(y, e);
            && z.written == y.written && z.got == y.got && OnWire(z)
            && Reached(y.rcv) <= Reached(z.rcv)
            && (Reached(y.rcv) < Reached(z.rcv) || PhaseRank(z.rcv) < PhaseRank(y.rcv))
  {
    QueuedIs(isn, y);
    if y.rcv.phase.Idle? {
      var k := NextOnWire(isn, y);
      e := DataArrives(k);
    } else {
      e := Proceeds;
    }
  }

  lemma {:induction false} Fill(isn: nat, y: Sys) returns (es: seq<Step>)
    requires SysInv(isn, y) && OnWire(y) && !WithinRoom(y)
    ensures Delivers(y, es) && B.NoRoom(Delivered(y, es).rcv)
    decreases isn + |y.written| - Reached(y.rcv), PhaseRank(y.rcv)
  {
    es := [];
    if !B.NoRoom(y.rcv) {
      var e := NextFilling(isn, y);
      StepKeepsSys(isn, y, e);
      var rest := Fill(isn, SysAfter(y, e));
      es := [e] + rest;
      assert es[1..] == rest;
    }
  }

  /**
   In any state of any run, some order of arrival makes the receiver wait for
   room before it reads again, if and only if more has been written than was
   read and fits into the buffer.
   */
  lemma FillsExactly(run: seq<Sys>, acts: seq<Step>, isn: nat, wnd: nat, adv: nat, i: nat)
    requires IsRun(run, acts, isn, wnd, adv) && i <= |acts|
    ensures CanFill(run[i]) <==> |run[i].got| + TCP_DEFAULT_WINDOW < |run[i].written|
  {
    var y := run[i];
    RunSysInv(run, acts, isn, wnd, adv, i);
    if WithinRoom(y) {
      forall es | Delivers(y, es)
        ensures !B.NoRoom(Delivered(y, es).rcv)
      {
        DeliveredWithin(isn, y, es);
        RoomWithin(isn, Delivered(y, es));
      }
    } else {
      RunOnWire(run, acts, isn, wnd, adv, i);
      var es := Fill(isn, y);
    }
  }
}
