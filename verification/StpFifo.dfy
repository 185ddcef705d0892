/** The spanning-tree protocol over links that deliver every message once and in order. */
module StpFifo {
  import opened Options
  import opened StpSwitch
  import opened StpInvariant
  import opened StpNetwork
  import opened StpLink
  import opened StpSafety

  datatype Fifo = Fifo(net: Net, received: map<Endpoint, nat>)

  ghost predicate FifoInit(t: Topology, f: Fifo) {
    Init(t, f.net) && f.received == map e | e in t.link :: 0
  }

  /** As in any network, except that a delivery hands over the oldest message not yet received. */
  ghost predicate FifoNext(t: Topology, f: Fifo, f': Fifo, a: Step) {
    && Next(t, f.net, f'.net, a)
    && match a
       case Deliver(e, k) => e in f.received && k == f.received[e] && f'.received == f.received[e := k + 1]
       case Hello(_) => f'.received == f.received
  }

  ghost predicate IsFifoRun(t: Topology, run: seq<Fifo>, acts: seq<Step>) {
    && |run| == |acts| + 1
    && FifoInit(t, run[0])
    && forall i {:trigger FifoStepAt(t, run, acts, i)} :: 0 <= i < |acts| ==> FifoStepAt(t, run, acts, i)
  }

  ghost predicate FifoStepAt(t: Topology, run: seq<Fifo>, acts: seq<Step>, i: nat)
    requires |run| == |acts| + 1 && i < |acts|
  {
    FifoNext(t, run[i], run[i + 1], acts[i])
  }

  ghost function EndOf(t: Topology, n: Net, e: Endpoint): End
    requires Shape(t, n) && Linked(t, e)
  {
    End(Blocked(n, e), n.switches[e.sw].ports[e.port], n.log[e])
  }

  ghost predicate LinkOk(t: Topology, f: Fifo, e: Endpoint)
    requires Shape(t, f.net) && Linked(t, e) && Linked(t, t.link[e])
  {
    && e in f.received && t.link[e] in f.received
    && LinkInv(EndOf(t, f.net, e), f.received[e], EndOf(t, f.net, t.link[e]), f.received[t.link[e]])
  }

  ghost predicate FifoInv(t: Topology, f: Fifo) {
    Inv(t, f.net) && AllLinksOk(t, f)
  }

  ghost predicate AllLinksOk(t: Topology, f: Fifo)
    requires Shape(t, f.net)
  {
    && f.received.Keys == t.link.Keys
    && forall e {:trigger LinkOk(t, f, e)} :: Linked(t, e) && Linked(t, t.link[e]) ==> LinkOk(t, f, e)
  }

  /** What an end says and holds, by the network invariant. */
  lemma EndSide(t: Topology, n: Net, e: Endpoint)
    requires Inv(t, n) && Linked(t, e)
    ensures Side(EndOf(t, n, e), t.ids[e.sw])
  {
    forall k | 0 <= k < |n.log[e]|
      ensures n.log[e][k].switch == t.ids[e.sw]
      ensures PortCmp(n.log[e][k], Own(n.switches[e.sw], e.port))
    {
      assert MessageTruthful(t, n, e, k);
    }
  }

  // ----- A step of a switch is, at each end, one of the moves of StpLink --

  ghost function PortEnd(s: Switch, i: nat, log: seq<Vector>): End
    requires i < |s.ports|
  {
    End(!Designated(s, i), s.ports[i], log)
  }

  lemma AcceptMoves(s: Switch, p: nat, c: Vector, i: nat, log: seq<Vector>)
    requires Coherent(s) && Settled(s) && p < |s.ports| && Foreign(s, c) && PortCmp(s.ports[p], c) && i < |s.ports|
    ensures var s' := Accept(s, p, c);
            && i < |s'.ports|
            && var v, v' := PortEnd(s, i, log), PortEnd(s', i, log + Through(SendConfigs(s', |s'.ports|), i));
               if i == p then Takes(v, v', c) else v' == v || Speaks(v, v')
  {
    var s' := Accept(s, p, c);
    AcceptKeeps(s, p, c);
    AcceptPorts(s, p, c);
    BroadcastSaysOwn(s', |s'.ports|, i);
    assert log + [] == log;
  }

  lemma RejectMoves(s: Switch, p: nat, c: Vector, i: nat, log: seq<Vector>)
    requires Coherent(s) && p < |s.ports| && !PortCmp(s.ports[p], c) && i < |s.ports|
    ensures var v, v' := PortEnd(s, i, log), PortEnd(s, i, log + Through(SendConfig(s, p), i));
            if i == p then Rejects(v, v', c) else v' == v
  {
    ReplySaysOwn(s, p, i);
    assert log + [] == log;
  }

  lemma HelloMoves(s: Switch, i: nat, log: seq<Vector>)
    requires Coherent(s) && i < |s.ports|
    ensures var v, v' := PortEnd(s, i, log), PortEnd(s, i, log + Through(SendConfigs(s, |s.ports|), i));
            v' == v || Speaks(v, v')
  {
    BroadcastSaysOwn(s, |s.ports|, i);
    assert log + [] == log;
  }

  lemma EndMoves(t: Topology, n: Net, n': Net, a: Step, e: Endpoint)
    requires Shape(t, n) && Shape(t, n') && Next(t, n, n', a) && Trusted(t, n, a) && Linked(t, e)
    ensures var v, v' := EndOf(t, n, e), EndOf(t, n', e);
            if a.Deliver? && e == t.link[a.from]
            then Takes(v, v', n.log[a.from][a.k]) || Rejects(v, v', n.log[a.from][a.k])
            else v' == v || Speaks(v, v')
  {
    var d := Outcome(t, n, a).0;
    var s := n.switches[e.sw];
    if e.sw == d {
      match a {
        case Deliver(from, k) =>
          if PortCmp(s.ports[t.link[from].port], n.log[from][k]) {
            AcceptMoves(s, t.link[from].port, n.log[from][k], e.port, n.log[e]);
          } else {
            RejectMoves(s, t.link[from].port, n.log[from][k], e.port, n.log[e]);
          }
        case Hello(_) =>
          HelloMoves(s, e.port, n.log[e]);
      }
    }
  }

  /** The counters of a link count the deliveries on it. */
  lemma LinkStep(t: Topology, f: Fifo, f': Fifo, a: Step, e: Endpoint)
    requires Shape(t, f.net) && Shape(t, f'.net) && FifoNext(t, f, f', a) && Trusted(t, f.net, a)
    requires Linked(t, e) && Linked(t, t.link[e]) && LinkOk(t, f, e)
    requires forall s, u :: 0 <= s < |t.ids| && 0 <= u < |t.ids| && t.ids[s] == t.ids[u] ==> s == u
    requires Side(EndOf(t, f.net, e), t.ids[e.sw]) && Side(EndOf(t, f'.net, e), t.ids[e.sw])
    requires var o := t.link[e]; Side(EndOf(t, f.net, o), t.ids[o.sw]) && Side(EndOf(t, f'.net, o), t.ids[o.sw])
    ensures LinkOk(t, f', e)
  {
    var o := t.link[e];
    EndMoves(t, f.net, f'.net, a, e);
    EndMoves(t, f.net, f'.net, a, o);
    LinkMove(EndOf(t, f.net, e), EndOf(t, f'.net, e), f.received[e], f'.received[e],
             EndOf(t, f.net, o), EndOf(t, f'.net, o), f.received[o], f'.received[o], t.ids[e.sw], t.ids[o.sw]);
  }

  ghost predicate SideOk(t: Topology, n: Net, e: Endpoint)
    requires Shape(t, n) && Linked(t, e)
  {
    Side(EndOf(t, n, e), t.ids[e.sw])
  }

  ghost predicate AllSidesOk(t: Topology, n: Net)
    requires Shape(t, n)
  {
    forall e {:trigger SideOk(t, n, e)} :: Linked(t, e) ==> SideOk(t, n, e)
  }

  lemma AllSides(t: Topology, n: Net)
    requires Inv(t, n)
    ensures AllSidesOk(t, n)
  {
    forall e | Linked(t, e)
      ensures SideOk(t, n, e)
    {
      EndSide(t, n, e);
    }
  }

  lemma AllLinksStep(t: Topology, f: Fifo, f': Fifo, a: Step)
    requires Shape(t, f.net) && Shape(t, f'.net) && FifoNext(t, f, f', a) && Trusted(t, f.net, a)
    requires forall s, u :: 0 <= s < |t.ids| && 0 <= u < |t.ids| && t.ids[s] == t.ids[u] ==> s == u
    requires AllSidesOk(t, f.net) && AllSidesOk(t, f'.net) && AllLinksOk(t, f)
    ensures AllLinksOk(t, f')
  {
    forall e | Linked(t, e) && Linked(t, t.link[e])
      ensures LinkOk(t, f', e)
    {
      assert LinkOk(t, f, e);
      assert SideOk(t, f.net, e) && SideOk(t, f.net, t.link[e]);
      assert SideOk(t, f'.net, e) && SideOk(t, f'.net, t.link[e]);
      LinkStep(t, f, f', a, e);
    }
  }

  lemma NetStepFacts(t: Topology, n: Net, n': Net, a: Step)
    requires ValidTopology(t) && Inv(t, n) && Next(t, n, n', a)
    ensures Inv(t, n') && Trusted(t, n, a)
    ensures AllSidesOk(t, n) && AllSidesOk(t, n')
  {
    InvTrusts(t, n, a);
    StepInv(t, n, n', a);
    AllSides(t, n);
    AllSides(t, n');
  }

  lemma FifoStepInv(t: Topology, f: Fifo, f': Fifo, a: Step)
    requires ValidTopology(t) && FifoInv(t, f) && FifoNext(t, f, f', a)
    ensures FifoInv(t, f')
  {
    NetStepFacts(t, f.net, f'.net, a);
    AllLinksStep(t, f, f', a);
  }

  lemma InitLinks(t: Topology, f: Fifo)
    requires FifoInit(t, f) && Shape(t, f.net)
    ensures AllLinksOk(t, f)
  {
    forall e | Linked(t, e) && Linked(t, t.link[e])
      ensures LinkOk(t, f, e)
    {
      assert InitialEnd(t, f.net, e) && InitialEnd(t, f.net, t.link[e]);
    }
  }

  lemma FifoInitInv(t: Topology, f: Fifo)
    requires ValidTopology(t) && FifoInit(t, f)
    ensures FifoInv(t, f)
  {
    InitInv(t, f.net);
    InitLinks(t, f);
  }

  ghost predicate InitialEnd(t: Topology, n: Net, e: Endpoint)
    requires Shape(t, n) && Linked(t, e)
  {
    !EndOf(t, n, e).blocked && EndOf(t, n, e).log == []
  }

  lemma {:induction false} FifoRunInv(t: Topology, run: seq<Fifo>, acts: seq<Step>, i: nat)
    requires ValidTopology(t) && IsFifoRun(t, run, acts) && i < |run|
    ensures FifoInv(t, run[i])
  {
    if i == 0 {
      FifoInitInv(t, run[0]);
    } else {
      FifoRunInv(t, run, acts, i - 1);
      FifoRunStep(t, run, acts, i - 1);
    }
  }

  lemma FifoRunStep(t: Topology, run: seq<Fifo>, acts: seq<Step>, i: nat)
    requires ValidTopology(t) && IsFifoRun(t, run, acts) && i < |acts| && FifoInv(t, run[i])
    ensures FifoInv(t, run[i + 1])
  {
    assert FifoStepAt(t, run, acts, i);
    FifoStepInv(t, run[i], run[i + 1], acts[i]);
  }

  /** Every link keeps a designated end, although both ends decide on stale, crossing messages. */
  lemma EveryLinkKeepsDesignatedEnd(t: Topology, run: seq<Fifo>, acts: seq<Step>, i: nat, e: Endpoint)
    requires ValidTopology(t) && IsFifoRun(t, run, acts) && i < |run| && e in t.link
    ensures !Blocked(run[i].net, e) || !Blocked(run[i].net, t.link[e])
  {
    FifoRunInv(t, run, acts, i);
    assert Linked(t, e) && Linked(t, t.link[e]);
    assert LinkOk(t, run[i], e);
  }

  // ----- When everything sent has arrived --------------------------------

  /** Nothing is in flight, and each link has been used in at least one direction. */
  ghost predicate Quiet(t: Topology, f: Fifo) {
    forall e :: e in t.link ==>
      && e in f.received && e in f.net.log && f.received[e] == |f.net.log[e]|
      && t.link[e] in f.net.log && (f.net.log[e] != [] || f.net.log[t.link[e]] != [])
  }

  /** Each link has one designated end, and the other end holds exactly the vector that end holds. */
  ghost predicate LinkAgrees(t: Topology, n: Net, e: Endpoint)
    requires Shape(t, n) && Linked(t, e) && Linked(t, t.link[e])
  {
    var o := t.link[e];
    (Blocked(n, e) <==> !Blocked(n, o)) && n.switches[e.sw].ports[e.port] == n.switches[o.sw].ports[o.port]
  }

  lemma QuietLinksAgree(t: Topology, f: Fifo, e: Endpoint)
    requires ValidTopology(t) && FifoInv(t, f) && Quiet(t, f) && Linked(t, e) && Linked(t, t.link[e])
    ensures LinkAgrees(t, f.net, e)
  {
    assert LinkOk(t, f, e);
    var o := t.link[e];
    assert o in t.link;
    QuietLinkAgrees(EndOf(t, f.net, e), f.received[e], EndOf(t, f.net, o), f.received[o]);
  }

  /** Frames pass a port that is designated or the root port of its switch. */
  ghost predicate Forwards(n: Net, e: Endpoint)
    requires e.sw < |n.switches| && e.port < |n.switches[e.sw].ports|
  {
    Designated(n.switches[e.sw], e.port) || n.switches[e.sw].rootPort == Some(e.port)
  }

  ghost predicate Active(t: Topology, n: Net, e: Endpoint) {
    && Linked(t, e)
    && e.sw < |n.switches| && e.port < |n.switches[e.sw].ports|
    && var o := t.link[e];
       && o.sw < |n.switches| && o.port < |n.switches[o.sw].ports|
       && Forwards(n, e) && Forwards(n, o)
  }

  /** In a quiet network one end of an active link is a root port, one hop farther than the other end. */
  ghost predicate OneHop(t: Topology, n: Net, e: Endpoint)
    requires e in t.link && e.sw < |n.switches| && t.link[e].sw < |n.switches|
  {
    && n.switches[e.sw].rootPort == Some(e.port)
    && n.switches[e.sw].root == n.switches[t.link[e].sw].root
    && n.switches[e.sw].cost == n.switches[t.link[e].sw].cost + PATH_COST
  }

  lemma ActiveLinkIsOneHop(t: Topology, n: Net, e: Endpoint)
    requires Shape(t, n) && Linked(t, e) && Linked(t, t.link[e]) && LinkAgrees(t, n, e) && Active(t, n, e)
    ensures OneHop(t, n, e) || OneHop(t, n, t.link[e])
  {
  }

  // A frame entering at switch `w[0].sw` and flooded out of `w[0]`, `w[1]`, ... never leaves by the port it came in.
  ghost predicate ClosedWalk(t: Topology, n: Net, w: seq<Endpoint>) {
    && w != []
    && (forall i :: 0 <= i < |w| ==> Active(t, n, w[i]))
    && forall i :: 0 <= i < |w| ==> Turns(t, w, i)
  }

  ghost predicate Turns(t: Topology, w: seq<Endpoint>, i: nat)
    requires i < |w| && w[i] in t.link
  {
    var next := if i + 1 < |w| then w[i + 1] else w[0];
    t.link[w[i]].sw == next.sw && t.link[w[i]] != next
  }

  lemma {:induction false} WorstOnWalk(n: Net, w: seq<Endpoint>, m: nat) returns (i: nat)
    requires 0 < m <= |w| && forall j :: 0 <= j < m ==> w[j].sw < |n.switches|
    ensures i < m && forall j :: 0 <= j < m ==> Le(BeliefOf(n.switches[w[j].sw]), BeliefOf(n.switches[w[i].sw]))
  {
    if m == 1 {
      i := 0;
    } else {
      i := WorstOnWalk(n, w, m - 1);
      if Lt(BeliefOf(n.switches[w[i].sw]), BeliefOf(n.switches[w[m - 1].sw])) {
        i := m - 1;
      }
    }
  }

  /** Of the two ends of an active link, one that is not the nearer one uses it as its root port. */
  lemma FartherEndUsesRootPort(t: Topology, n: Net, e: Endpoint)
    requires e in t.link && t.link[e] in t.link && t.link[t.link[e]] == e
    requires e.sw < |n.switches| && t.link[e].sw < |n.switches|
    requires OneHop(t, n, e) || OneHop(t, n, t.link[e])
    requires Le(BeliefOf(n.switches[t.link[e].sw]), BeliefOf(n.switches[e.sw]))
    ensures n.switches[e.sw].rootPort == Some(e.port)
  {
  }

  /**
   The point of the protocol: once the network is quiet, no frame can circulate.
   At the switch of a closed walk farthest from its root, both the way in and the
   way out would have to be its root port.
   */
  lemma NoForwardingLoop(t: Topology, n: Net, w: seq<Endpoint>)
    requires forall e :: Active(t, n, e) ==> OneHop(t, n, e) || OneHop(t, n, t.link[e])
    ensures !ClosedWalk(t, n, w)
  {
    if ClosedWalk(t, n, w) {
      var i := WorstOnWalk(n, w, |w|);
      var before := if i == 0 then |w| - 1 else i - 1;
      assert Turns(t, w, before);
      FartherEndUsesRootPort(t, n, t.link[w[before]]);
      assert Turns(t, w, i);
      FartherEndUsesRootPort(t, n, w[i]);
    }
  }

  /** A quiet network of switches that has never lost or reordered a message forwards along a forest. */
  lemma QuietNetworkIsForest(t: Topology, run: seq<Fifo>, acts: seq<Step>, i: nat)
    requires ValidTopology(t) && IsFifoRun(t, run, acts) && i < |run| && Quiet(t, run[i])
    ensures forall w :: !ClosedWalk(t, run[i].net, w)
    ensures forall e :: e in t.link ==> (Blocked(run[i].net, e) <==> !Blocked(run[i].net, t.link[e]))
    ensures forall e :: Active(t, run[i].net, e) ==> OneHop(t, run[i].net, e) || OneHop(t, run[i].net, t.link[e])
  {
    FifoRunInv(t, run, acts, i);
    var n := run[i].net;
    forall e | e in t.link
      ensures Linked(t, e) && Linked(t, t.link[e]) && LinkAgrees(t, n, e)
    {
      assert Linked(t, e) && Linked(t, t.link[e]);
      QuietLinksAgree(t, run[i], e);
    }
    forall e | Active(t, n, e)
      ensures OneHop(t, n, e) || OneHop(t, n, t.link[e])
    {
      ActiveLinkIsOneHop(t, n, e);
    }
    forall w
      ensures !ClosedWalk(t, n, w)
    {
      NoForwardingLoop(t, n, w);
    }
  }

  /** Every root port of `n` leads one hop closer to the same root. */
  ghost predicate RootPortsExact(t: Topology, n: Net) {
    forall u :: 0 <= u < |n.switches| && n.switches[u].rootPort.Some? ==> RootPortExact(t, n, u)
  }

  ghost predicate RootPortExact(t: Topology, n: Net, u: nat)
    requires u < |n.switches| && n.switches[u].rootPort.Some?
  {
    var e := Endpoint(u, n.switches[u].rootPort.value);
    && e in t.link && t.link[e].sw < |n.switches|
    && n.switches[u].root == n.switches[t.link[e].sw].root
    && n.switches[u].cost == n.switches[t.link[e].sw].cost + PATH_COST
  }

  lemma RootPortIsExact(t: Topology, n: Net, u: nat, e: Endpoint)
    requires Shape(t, n) && u < |n.switches| && n.switches[u].rootPort == Some(e.port) && e.sw == u
    requires Linked(t, e) && Linked(t, t.link[e]) && LinkAgrees(t, n, e) && Blocked(n, e)
    requires BeliefOf(n.switches[u]) == Belief(n.switches[u].ports[e.port].root, n.switches[u].ports[e.port].cost + 1)
    ensures RootPortExact(t, n, u)
  {
  }

  lemma {:induction false} ExactWalk(t: Topology, n: Net, u: nat) returns (w: seq<nat>)
    requires u < |n.switches| && RootPortsExact(t, n)
    requires forall s :: 0 <= s < |n.switches| ==> (n.switches[s].rootPort.None? <==> n.switches[s].cost == 0)
    requires forall s :: 0 <= s < |n.switches| && n.switches[s].rootPort.None? ==> IsRoot(n.switches[s])
    ensures RootWalk(t, n, w) && |w| == n.switches[u].cost + 1 && w[0] == u
    ensures n.switches[w[|w| - 1]].id == n.switches[u].root && IsRoot(n.switches[w[|w| - 1]])
    decreases n.switches[u].cost
  {
    if n.switches[u].rootPort.None? {
      w := [u];
    } else {
      assert RootPortExact(t, n, u);
      var v := t.link[Endpoint(u, n.switches[u].rootPort.value)].sw;
      var rest := ExactWalk(t, n, v);
      w := [u] + rest;
      forall j | 0 <= j < |w| - 1
        ensures ParentOf(t, n, w[j], w[j + 1])
      {
        if j > 0 {
          assert ParentOf(t, n, rest[j - 1], rest[j]);
        }
      }
    }
  }

  ghost predicate ReachesItsRoot(t: Topology, n: Net, s: nat)
    requires s < |n.switches|
  {
    exists w :: RootWalk(t, n, w) && |w| == n.switches[s].cost + 1 && w[0] == s &&
                n.switches[w[|w| - 1]].id == n.switches[s].root && IsRoot(n.switches[w[|w| - 1]])
  }

  /** In a quiet network the advertised cost is the exact number of root ports between a switch and its root. */
  lemma QuietCostsAreExact(t: Topology, run: seq<Fifo>, acts: seq<Step>, i: nat)
    requires ValidTopology(t) && IsFifoRun(t, run, acts) && i < |run| && Quiet(t, run[i])
    ensures forall s :: 0 <= s < |run[i].net.switches| ==> ReachesItsRoot(t, run[i].net, s)
  {
    FifoRunInv(t, run, acts, i);
    var n := run[i].net;
    QuietRootPorts(t, run[i]);
    forall s | 0 <= s < |n.switches|
      ensures ReachesItsRoot(t, n, s)
    {
      var w := ExactWalk(t, n, s);
    }
  }

  lemma QuietRootPorts(t: Topology, f: Fifo)
    requires ValidTopology(t) && FifoInv(t, f) && Quiet(t, f)
    ensures RootPortsExact(t, f.net)
  {
    forall u | 0 <= u < |f.net.switches| && f.net.switches[u].rootPort.Some?
      ensures RootPortExact(t, f.net, u)
    {
      QuietRootPort(t, f, u);
    }
  }

  lemma QuietRootPort(t: Topology, f: Fifo, u: nat)
    requires ValidTopology(t) && FifoInv(t, f) && Quiet(t, f)
    requires u < |f.net.switches| && f.net.switches[u].rootPort.Some?
    ensures RootPortExact(t, f.net, u)
  {
    var e := Endpoint(u, f.net.switches[u].rootPort.value);
    RootPortBlocked(t, f.net, u);
    assert Linked(t, e) && Linked(t, t.link[e]);
    QuietLinksAgree(t, f, e);
    RootPortIsExact(t, f.net, u, e);
  }

  // ----- A run that becomes quiet ----------------------------------------------

  /** Two switches with one port each, linked to each other. */
  function TwoSwitches(): Topology {
    Topology([1, 2], [1, 1], map[Endpoint(0, 0) := Endpoint(1, 0), Endpoint(1, 0) := Endpoint(0, 0)])
  }

  lemma PairIsValid()
    ensures ValidTopology(TwoSwitches())
  {
    var t := TwoSwitches();
    forall e | e in t.link
      ensures Linked(t, e)
    {
      assert e == Endpoint(0, 0) || e == Endpoint(1, 0);
    }
  }

  /** The lower switch announces itself and the other accepts it through its only port. */
  lemma LowerIsAccepted()
    ensures var (s, c) := (InitSwitch(2, 1), Own(InitSwitch(1, 1), 0));
            && SendConfigs(InitSwitch(1, 1), 1) == [Send(0, c)]
            && HandleConfig(s, 0, c) == (Switch(2, 1, 1, Some(0), [c], false), [])
  {
    var (s, c) := (InitSwitch(2, 1), Own(InitSwitch(1, 1), 0));
    var s1 := s.(ports := s.ports[0 := c]);
    assert s1.ports == [c] && !Designated(s1, 0);
    assert Best(s1, true, 0) == None && Best(s1, false, 0) == None;
    var s2 := Adopt(s1, RootPort(s1));
    assert Refresh(s2).ports == [c];
    assert Accept(s, 0, c) == Switch(2, 1, 1, Some(0), [c], false);
    assert SendConfigs(Accept(s, 0, c), 0) == [];
    assert SendConfigs(InitSwitch(1, 1), 0) == [];
  }

  lemma OneMessage(c: Vector)
    ensures Through([Send(0, c)], 0) == [c] && Through([], 0) == []
  {
    assert [Send(0, c)][..0] == [];
  }

  /** The three states of the run: at the start, with the message sent, with it received. */
  function QuietRun(): seq<Fifo> {
    var a, b, c := Endpoint(0, 0), Endpoint(1, 0), Own(InitSwitch(1, 1), 0);
    var s0, s1, s2 := InitSwitch(1, 1), InitSwitch(2, 1), Switch(2, 1, 1, Some(0), [c], false);
    [ Fifo(Net([s0, s1], map[a := [], b := []]), map[a := 0, b := 0]),
      Fifo(Net([s0, s1], map[a := [c], b := []]), map[a := 0, b := 0]),
      Fifo(Net([s0, s2], map[a := [c], b := []]), map[a := 1, b := 0]) ]
  }

  lemma QuietRunStarts()
    ensures FifoInit(TwoSwitches(), QuietRun()[0])
  {
  }

  lemma QuietRunSpeaks()
    ensures FifoNext(TwoSwitches(), QuietRun()[0], QuietRun()[1], Hello(0))
  {
    LowerIsAccepted();
    OneMessage(Own(InitSwitch(1, 1), 0));
    var (f0, f1) := (QuietRun()[0], QuietRun()[1]);
    assert f1.net.log == Record(f0.net.log, 0, [Send(0, Own(InitSwitch(1, 1), 0))]);
    assert f0.net.switches[0 := InitSwitch(1, 1)] == f1.net.switches;
  }

  lemma QuietRunHears()
    ensures FifoNext(TwoSwitches(), QuietRun()[1], QuietRun()[2], Deliver(Endpoint(0, 0), 0))
  {
    LowerIsAccepted();
    OneMessage(Own(InitSwitch(1, 1), 0));
    var (f1, f2) := (QuietRun()[1], QuietRun()[2]);
    assert f2.net.log == Record(f1.net.log, 1, []);
    assert f1.net.switches[1 := f2.net.switches[1]] == f2.net.switches;
  }

  lemma QuietRunEnds()
    ensures Quiet(TwoSwitches(), QuietRun()[2])
  {
    var f := QuietRun()[2];
    forall e | e in TwoSwitches().link
      ensures e in f.received && e in f.net.log && f.received[e] == |f.net.log[e]|
      ensures TwoSwitches().link[e] in f.net.log && (f.net.log[e] != [] || f.net.log[TwoSwitches().link[e]] != [])
    {
      assert e == Endpoint(0, 0) || e == Endpoint(1, 0);
    }
  }

  lemma QuietRunIsRun()
    ensures IsFifoRun(TwoSwitches(), QuietRun(), [Hello(0), Deliver(Endpoint(0, 0), 0)])
  {
    QuietRunStarts();
    QuietRunSpeaks();
    QuietRunHears();
    var (run, acts) := (QuietRun(), [Hello(0), Deliver(Endpoint(0, 0), 0)]);
    assert FifoStepAt(TwoSwitches(), run, acts, 0) && FifoStepAt(TwoSwitches(), run, acts, 1);
  }

  /** Quiet states are reached: here both switches agree on the root, at costs 0 and 1. */
  lemma PairGoesQuiet() returns (run: seq<Fifo>, acts: seq<Step>)
    ensures ValidTopology(TwoSwitches()) && IsFifoRun(TwoSwitches(), run, acts) && Quiet(TwoSwitches(), run[|acts|])
    ensures run[|acts|].net.switches ==
            [InitSwitch(1, 1), Switch(2, 1, 1, Some(0), [Own(InitSwitch(1, 1), 0)], false)]
  {
    PairIsValid();
    QuietRunIsRun();
    QuietRunEnds();
    run, acts := QuietRun(), [Hello(0), Deliver(Endpoint(0, 0), 0)];
  }
}
