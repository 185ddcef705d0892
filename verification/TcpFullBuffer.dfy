/**
 A sender and a receiver of this program with nothing lost or reordered between
 them, and a slow reader: the sender sends one packet more than the window it
 was told, and the receiver hangs.
 */
module TcpFullBuffer {
  import opened RingBuffer
  import opened TcpConstants
  import opened TcpSender
  import opened TcpReceiver
  import opened TcpSocket
  import opened TcpEndToEnd
  import B = TcpBlocking

  /** Every packet is sent only when the window test of the writer lets it go. */
  ghost predicate Obeys(run: seq<Sys>, acts: seq<Step>)
    requires |run| == |acts| + 1
  {
    forall i :: 0 <= i < |acts| && acts[i].Writes? ==> |acts[i].data| <= MSS && !Blocked(run[i].snd)
  }

  lemma Extend(run: seq<Sys>, acts: seq<Step>, isn: nat, wnd: nat, adv: nat, e: Step)
    returns (run': seq<Sys>, acts': seq<Step>)
    requires IsRun(run, acts, isn, wnd, adv) && Obeys(run, acts) && Enabled(run[|acts|], e)
    requires e.Writes? ==> |e.data| <= MSS && !Blocked(run[|acts|].snd)
    ensures IsRun(run', acts', isn, wnd, adv) && Obeys(run', acts')
    ensures run'[|acts'|] == SysAfter(run[|acts|], e)
  {
    ExtendRun(run, acts, isn, wnd, adv, e);
    run', acts' := run + [SysAfter(run[|acts|], e)], acts + [e];
  }

  /** After `k` packets, each of them acknowledged and none read. */
  ghost predicate Settled(y: Sys, isn: nat, k: nat)
    requires k <= 44
  {
    && y.snd.una == y.snd.nxt == isn + k * MSS && y.snd.queue == [] && y.snd.inflight == 0 && y.snd.state == OPEN
    && (k > 0 ==> y.snd.adv == TCP_DEFAULT_WINDOW - k * MSS)
    && y.rcv == B.Filled(isn, k).rcv && y.wire == B.Packets(isn, k) && |y.wire| == |y.acks| == k
  }

  lemma OneAcked(s: Snd, data: seq<Byte>, rwnd: nat)
    requires s.una == s.nxt && s.queue == [] && s.inflight == 0 && s.state == OPEN && data != []
    ensures var t := ProcessAck(SendPacket(s, data).0, s.nxt + |data|, rwnd).0;
            t.una == t.nxt == s.nxt + |data| && t.queue == [] && t.inflight == 0 && t.state == OPEN && t.adv == rwnd
  {
    var s1 := SendPacket(s, data).0.(repAck := 0);
    assert PopAcked(s1, s1.nxt) == PopFirst(s1);
  }

  /** The packet that fits is written, stored and acknowledged. */
  lemma OneRound(run: seq<Sys>, acts: seq<Step>, isn: nat, wnd: nat, adv: nat, k: nat)
    returns (run': seq<Sys>, acts': seq<Step>)
    requires IsRun(run, acts, isn, wnd, adv) && Obeys(run, acts) && k < 44 && Settled(run[|acts|], isn, k)
    ensures IsRun(run', acts', isn, wnd, adv) && Obeys(run', acts') && Settled(run'[|acts'|], isn, k + 1)
  {
    var data := B.Zeros(MSS);
    run', acts' := Extend(run, acts, isn, wnd, adv, Writes(data));
    run', acts' := Stores(run', acts', isn, wnd, adv, k);
    OneAcked(run[|acts|].snd, data, run'[|acts'|].acks[k].rwnd);
    run', acts' := Extend(run', acts', isn, wnd, adv, AckArrives(k));
  }

  /** A packet that arrives in order and fits is acknowledged with the window that is left. */
  lemma Stores(run: seq<Sys>, acts: seq<Step>, isn: nat, wnd: nat, adv: nat, k: nat)
    returns (run': seq<Sys>, acts': seq<Step>)
    requires IsRun(run, acts, isn, wnd, adv) && Obeys(run, acts) && k < 44 && |run[|acts|].wire| == k + 1
    requires run[|acts|].rcv == B.Filled(isn, k).rcv && run[|acts|].wire[k] == B.Packet(isn, k)
    ensures IsRun(run', acts', isn, wnd, adv) && Obeys(run', acts')
    ensures var (y, y') := (run[|acts|], run'[|acts'|]);
            && y'.snd == y.snd && y'.wire == y.wire && y'.rcv == B.Filled(isn, k + 1).rcv
            && y'.acks == y.acks + [AckMessage(isn + (k + 1) * MSS, TCP_DEFAULT_WINDOW - (k + 1) * MSS)]
  {
    assert B.Zeros(k * MSS) + B.Zeros(MSS) == B.Zeros((k + 1) * MSS);
    run', acts' := Extend(run, acts, isn, wnd, adv, DataArrives(k));
    run', acts' := Extend(run', acts', isn, wnd, adv, Proceeds);
    run', acts' := Extend(run', acts', isn, wnd, adv, Proceeds);
  }

  lemma {:induction false} Rounds(isn: nat, wnd: nat, adv: nat, k: nat) returns (run: seq<Sys>, acts: seq<Step>)
    requires k <= 44
    ensures IsRun(run, acts, isn, wnd, adv) && Obeys(run, acts) && Settled(run[|acts|], isn, k)
  {
    if k == 0 {
      run, acts := [InitSys(isn, wnd, adv)], [];
      assert B.Zeros(0) == [];
    } else {
      run, acts := Rounds(isn, wnd, adv, k - 1);
      run, acts := OneRound(run, acts, isn, wnd, adv, k - 1);
    }
  }

  /**
   An honest pair hangs: with nothing outstanding the window test lets the 45th
   packet go although the receiver has told less than a packet, and the threads
   of the receiver, given exactly the packets of that run, come to a stand.
   */
  lemma HonestPairHangs(isn: nat, wnd: nat, adv: nat)
    returns (run: seq<Sys>, acts: seq<Step>, ms: seq<B.Move>, i: nat)
    ensures IsRun(run, acts, isn, wnd, adv) && Obeys(run, acts) && B.CanAll(B.InitSocket(isn), ms)
    ensures i < |acts| && acts[i].Writes? && run[i].snd.adv == 1295 < |acts[i].data|
    ensures var k := B.AfterAll(B.InitSocket(isn), ms);
            && k.rcv == run[|acts|].rcv && B.Segments(ms) == run[|acts|].wire
            && B.Doomed(k) && k.app == B.Spinning && forall m :: !B.Can(k, m)
  {
    ms := B.FullBufferHangs(isn);
    run, acts := Rounds(isn, wnd, adv, 44);
    i := |acts|;
    run, acts := Last(run, acts, isn, wnd, adv);
  }

  lemma Last(run: seq<Sys>, acts: seq<Step>, isn: nat, wnd: nat, adv: nat)
    returns (run': seq<Sys>, acts': seq<Step>)
    requires IsRun(run, acts, isn, wnd, adv) && Obeys(run, acts) && Settled(run[|acts|], isn, 44)
    ensures IsRun(run', acts', isn, wnd, adv) && Obeys(run', acts')
    ensures |acts| < |acts'| && run'[|acts|] == run[|acts|] && acts'[|acts|] == Writes(B.Zeros(MSS))
    ensures run'[|acts'|].rcv == Read(B.Filled(isn, 44).rcv.(phase := Storing(B.Packet(isn, 44))), 500).0
    ensures run'[|acts'|].wire == B.Packets(isn, 45)
  {
    var y0 := run[|acts|];
    var y1 := SysAfter(y0, Writes(B.Zeros(MSS)));
    var y2 := SysAfter(y1, DataArrives(44));
    var y3 := SysAfter(y2, Reads(500));
    run', acts' := run + [y1], acts + [Writes(B.Zeros(MSS))];
    ExtendRun(run, acts, isn, wnd, adv, Writes(B.Zeros(MSS)));
    ExtendRun(run', acts', isn, wnd, adv, DataArrives(44));
    run', acts' := run' + [y2], acts' + [DataArrives(44)];
    ExtendRun(run', acts', isn, wnd, adv, Reads(500));
    run', acts' := run' + [y3], acts' + [Reads(500)];
  }
}
