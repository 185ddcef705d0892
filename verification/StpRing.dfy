/**
 The ring of four switches of the exercise, with one message on its way from the
 root to switch 2 for a long time: in the end switch 4 speaks for the link to
 switch 2 although it is farther from the root, and sends its frames the other
 way round although switch 2 is as near as switch 3.
 */
module StpRing {
  import opened Options
  import opened StpSwitch
  import opened StpInvariant
  import opened StpNetwork
  import opened StpFifo
  import opened StpOrder

  const A0 := Endpoint(0, 0) // to switch 2
  const A1 := Endpoint(0, 1) // to switch 3
  const B0 := Endpoint(1, 0) // to switch 1
  const B1 := Endpoint(1, 1) // to switch 4
  const C0 := Endpoint(2, 0) // to switch 1
  const C1 := Endpoint(2, 1) // to switch 4
  const D0 := Endpoint(3, 0) // to switch 2
  const D1 := Endpoint(3, 1) // to switch 3

  function Ring(): Topology {
    Topology([1, 2, 3, 4], [2, 2, 2, 2],
             map[A0 := B0, B0 := A0, A1 := C0, C0 := A1, B1 := D0, D0 := B1, C1 := D1, D1 := C1])
  }

  predicate OnRing(e: Endpoint) {
    e.sw < 4 && e.port < 2
  }

  lemma RingIs(e: Endpoint)
    ensures e in Ring().link <==> OnRing(e)
    ensures OnRing(e) ==> e == A0 || e == A1 || e == B0 || e == B1 || e == C0 || e == C1 || e == D0 || e == D1
  {
  }

  lemma RingIsValid()
    ensures ValidTopology(Ring())
  {
    var t := Ring();
    forall e | e in t.link
      ensures Linked(t, e)
    {
      RingIs(e);
    }
  }

  // ----- A switch with two ports --------------------------------------------------

  lemma RootPortOfTwo(s: Switch)
    requires |s.ports| == 2 && !Designated(s, 0)
    ensures RootPort(s) == if Designated(s, 1) || Better(s.ports[0], s.ports[1]) then Some(0) else Some(1)
  {
    RootPortIsLeast(s);
  }

  lemma OtherRootPort(s: Switch)
    requires |s.ports| == 2 && Designated(s, 0) && !Designated(s, 1)
    ensures RootPort(s) == Some(1)
  {
    RootPortIsLeast(s);
  }

  lemma SaysThrough(s: Switch)
    requires |s.ports| == 2
    ensures SendConfigs(s, 2) ==
            (if Designated(s, 0) then SendConfig(s, 0) else []) + (if Designated(s, 1) then SendConfig(s, 1) else [])
  {
    assert SendConfigs(s, 0) == [];
    assert SendConfigs(s, 1) == SendConfigs(s, 0) + if Designated(s, 0) then SendConfig(s, 0) else [];
  }

  // ----- The switches on the way ---------------------------------------------------

  const P0 := PortId(0)
  const P1 := PortId(1)

  function First(): Switch {
    InitSwitch(1, 2)
  }

  /** Switch 3 after the announcement of the root, and switch 4 after that of switch 3. */
  function Third(): Switch {
    Switch(3, 1, 1, Some(0), [Vector(1, 0, 1, P1), Vector(1, 1, 3, P1)], false)
  }

  function Fourth(): Switch {
    Switch(4, 1, 2, Some(1), [Vector(1, 2, 4, P0), Vector(1, 1, 3, P1)], false)
  }

  /** Switch 2 after the announcement of switch 4, and after that of the root. */
  function Late(): Switch {
    Switch(2, 1, 3, Some(1), [Vector(1, 3, 2, P0), Vector(1, 2, 4, P0)], false)
  }

  function Second(): Switch {
    Switch(2, 1, 1, Some(0), [Vector(1, 0, 1, P0), Vector(1, 2, 4, P0)], false)
  }

  lemma FirstSpeaks()
    ensures SendConfigs(First(), 2) == [Send(0, Vector(1, 0, 1, P0)), Send(1, Vector(1, 0, 1, P1))]
  {
    SaysThrough(First());
  }

  lemma InitialPorts(id: nat)
    ensures var s := InitSwitch(id, 2); s.ports == [Vector(id, 0, id, P0), Vector(id, 0, id, P1)]
    ensures Designated(InitSwitch(id, 2), 0) && Designated(InitSwitch(id, 2), 1)
  {
  }

  lemma ThirdTakes()
    ensures HandleConfig(InitSwitch(3, 2), 0, Vector(1, 0, 1, P1)) == (Third(), [Send(1, Vector(1, 1, 3, P1))])
  {
    var (s, c) := (InitSwitch(3, 2), Vector(1, 0, 1, P1));
    InitialPorts(3);
    assert PortCmp(s.ports[0], c);
    AcceptPorts(s, 0, c);
    var t := Accept(s, 0, c);
    RootPortOfTwo(t);
    SaysThrough(t);
    assert t.ports == Third().ports && |t.ports| == 2;
    assert t == Third();
    assert !Designated(t, 0) && Designated(t, 1);
    assert SendConfigs(t, 2) == [] + [Send(1, Vector(1, 1, 3, P1))] == [Send(1, Vector(1, 1, 3, P1))];
  }

  lemma FourthTakes()
    ensures HandleConfig(InitSwitch(4, 2), 1, Vector(1, 1, 3, P1)) == (Fourth(), [Send(0, Vector(1, 2, 4, P0))])
  {
    var (s, c) := (InitSwitch(4, 2), Vector(1, 1, 3, P1));
    InitialPorts(4);
    assert PortCmp(s.ports[1], c);
    AcceptPorts(s, 1, c);
    var t := Accept(s, 1, c);
    OtherRootPort(t);
    SaysThrough(t);
    assert t.ports == Fourth().ports && |t.ports| == 2;
    assert t == Fourth();
    assert Designated(t, 0) && !Designated(t, 1);
    assert SendConfigs(t, 2) == [Send(0, Vector(1, 2, 4, P0))] + [] == [Send(0, Vector(1, 2, 4, P0))];
  }

  lemma SecondTakesFourth()
    ensures HandleConfig(InitSwitch(2, 2), 1, Vector(1, 2, 4, P0)) == (Late(), [Send(0, Vector(1, 3, 2, P0))])
  {
    var (s, c) := (InitSwitch(2, 2), Vector(1, 2, 4, P0));
    InitialPorts(2);
    assert PortCmp(s.ports[1], c);
    AcceptPorts(s, 1, c);
    var t := Accept(s, 1, c);
    OtherRootPort(t);
    SaysThrough(t);
    assert t.ports == Late().ports && |t.ports| == 2;
    assert t == Late();
    assert Designated(t, 0) && !Designated(t, 1);
    assert SendConfigs(t, 2) == [Send(0, Vector(1, 3, 2, P0))] + [] == [Send(0, Vector(1, 3, 2, P0))];
  }

  lemma SecondTakesFirst(s: Switch)
    requires s == Late() || s == Second()
    ensures HandleConfig(s, 0, Vector(1, 0, 1, P0)) == (Second(), [])
  {
    var c := Vector(1, 0, 1, P0);
    AcceptPorts(s, 0, c);
    var t := Accept(s, 0, c);
    RootPortOfTwo(t);
    SaysThrough(t);
    assert t.ports == Second().ports;
  }

  lemma FirstRefuses()
    ensures HandleConfig(First(), 0, Vector(1, 3, 2, P0)) == (First(), [Send(0, Vector(1, 0, 1, P0))])
  {
  }

  // ----- The run ---------------------------------------------------------------------

  /** Something for each of the eight ports. */
  datatype Eight<T> = Eight(a0: T, a1: T, b0: T, b1: T, c0: T, c1: T, d0: T, d1: T)
  {
    function Of(e: Endpoint): T
      requires OnRing(e)
    {
      match e.sw
      case 0 => if e.port == 0 then a0 else a1
      case 1 => if e.port == 0 then b0 else b1
      case 2 => if e.port == 0 then c0 else c1
      case _ => if e.port == 0 then d0 else d1
    }
  }

  function MapOf<T>(x: Eight<T>): map<Endpoint, T> {
    map e | e in Ring().link && OnRing(e) :: x.Of(e)
  }

  lemma ThroughOne(i: nat, c: Vector, j: nat)
    ensures Through([Send(i, c)], j) == (if i == j then [c] else []) && Through([], j) == []
  {
    assert [Send(i, c)][..0] == [];
  }

  lemma ThroughTwo(c: Vector, d: Vector)
    ensures Through([Send(0, c), Send(1, d)], 0) == [c] && Through([Send(0, c), Send(1, d)], 1) == [d]
  {
    var out := [Send(0, c), Send(1, d)];
    assert out[..1] == [Send(0, c)];
    ThroughOne(0, c, 0);
    ThroughOne(0, c, 1);
  }

  /** The logs after switch `sw` has sent `out`. */
  ghost predicate Said(l: Eight<seq<Vector>>, l': Eight<seq<Vector>>, sw: nat, out: seq<Send>) {
    forall e :: OnRing(e) ==> l'.Of(e) == if e.sw == sw then l.Of(e) + Through(out, e.port) else l.Of(e)
  }

  /** One more message has been received from `e`. */
  ghost predicate Counted(r: Eight<nat>, r': Eight<nat>, e: Endpoint) {
    forall x :: OnRing(x) ==> r'.Of(x) == if x == e then r.Of(x) + 1 else r.Of(x)
  }

  lemma MapAt<T>(x: Eight<T>, e: Endpoint)
    requires OnRing(e)
    ensures e in Ring().link && e in MapOf(x) && MapOf(x)[e] == x.Of(e)
  {
    RingIs(e);
  }

  lemma Logs(l: Eight<seq<Vector>>, l': Eight<seq<Vector>>, sw: nat, out: seq<Send>)
    requires Said(l, l', sw, out)
    ensures MapOf(l') == Record(MapOf(l), sw, out)
  {
    assert Record(MapOf(l), sw, out).Keys == MapOf(l).Keys == MapOf(l').Keys;
  }

  lemma Counts(r: Eight<nat>, r': Eight<nat>, e: Endpoint)
    requires OnRing(e) && Counted(r, r', e)
    ensures e in MapOf(r) && MapOf(r') == MapOf(r)[e := (r.Of(e) + 1) as nat]
  {
    RingIs(e);
  }

  /** The states of the run, by their switches, logs and counters. */
  function State(b: Switch, c: Switch, d: Switch, l: Eight<seq<Vector>>, r: Eight<nat>): Fifo {
    Fifo(Net([First(), b, c, d], MapOf(l)), MapOf(r))
  }

  lemma DeliversMaps(f: Fifo, f': Fifo, e: Endpoint, s: Switch, out: seq<Send>)
    requires e in Ring().link && e in f.received && e in f.net.log && f.received[e] < |f.net.log[e]|
    requires |f.net.switches| == 4
    requires var d := Ring().link[e];
             && d.port < |f.net.switches[d.sw].ports|
             && HandleConfig(f.net.switches[d.sw], d.port, f.net.log[e][f.received[e]]) == (s, out)
             && f'.net.switches == f.net.switches[d.sw := s] && f'.net.log == Record(f.net.log, d.sw, out)
    requires f'.received == f.received[e := f.received[e] + 1]
    ensures FifoNext(Ring(), f, f', Deliver(e, f.received[e]))
  {
  }

  /** A delivery, from what the switch makes of it. */
  lemma Delivers(f: Fifo, f': Fifo, l: Eight<seq<Vector>>, l': Eight<seq<Vector>>, r: Eight<nat>, r': Eight<nat>,
                 e: Endpoint, s: Switch, out: seq<Send>)
    requires OnRing(e) && |f.net.switches| == 4 && f.net.log == MapOf(l) && f'.net.log == MapOf(l')
    requires f.received == MapOf(r) && f'.received == MapOf(r') && r.Of(e) < |l.Of(e)| && Counted(r, r', e)
    requires e in Ring().link
    requires var d := Ring().link[e];
             && d.port < |f.net.switches[d.sw].ports| && Said(l, l', d.sw, out)
             && HandleConfig(f.net.switches[d.sw], d.port, l.Of(e)[r.Of(e)]) == (s, out)
             && f'.net.switches == f.net.switches[d.sw := s]
    ensures FifoNext(Ring(), f, f', Deliver(e, r.Of(e)))
  {
    MapAt(l, e);
    MapAt(r, e);
    Counts(r, r', e);
    Logs(l, l', Ring().link[e].sw, out);
    DeliversMaps(f, f', e, s, out);
  }

  const R0 := Vector(1, 0, 1, P0)
  const R1 := Vector(1, 0, 1, P1)
  const V := Vector(1, 3, 2, P0)
  const W := Vector(1, 1, 3, P1)
  const X := Vector(1, 2, 4, P0)

  /** What has been sent in the states of the run. */
  function LogAt(i: nat): Eight<seq<Vector>> {
    Eight(if i == 0 then [] else if i <= 5 then [R0] else [R0, R0], if i == 0 then [] else [R1],
          if i <= 3 then [] else [V], [], [], if i <= 1 then [] else [W], if i <= 2 then [] else [X], [])
  }

  /** What has been received. */
  function CountAt(i: nat): Eight<nat> {
    Eight(if i <= 4 then 0 else if i <= 6 then 1 else 2, if i <= 1 then 0 else 1, if i <= 5 then 0 else 1, 0, 0,
          if i <= 2 then 0 else 1, if i <= 3 then 0 else 1, 0)
  }

  function At(i: nat): Fifo {
    State(if i <= 3 then InitSwitch(2, 2) else if i == 4 then Late() else Second(),
          if i <= 1 then InitSwitch(3, 2) else Third(), if i <= 2 then InitSwitch(4, 2) else Fourth(),
          LogAt(i), CountAt(i))
  }

  lemma Starts()
    ensures FifoInit(Ring(), At(0))
  {
    assert At(0).net.switches == [InitSwitch(1, 2), InitSwitch(2, 2), InitSwitch(3, 2), InitSwitch(4, 2)];
    forall e: Endpoint
      ensures e in At(0).net.log <==> e in Ring().link
      ensures e in At(0).received <==> e in Ring().link
    {
      RingIs(e);
    }
  }

  lemma FirstAnnounces()
    ensures FifoNext(Ring(), At(0), At(1), Hello(0))
  {
    FirstSpeaks();
    ThroughTwo(R0, R1);
    Logs(LogAt(0), LogAt(1), 0, [Send(0, R0), Send(1, R1)]);
    assert At(0).net.switches[0 := First()] == At(1).net.switches;
  }

  lemma ThirdHears()
    ensures FifoNext(Ring(), At(1), At(2), Deliver(A1, 0))
  {
    ThirdTakes();
    ThroughOne(1, W, 0);
    ThroughOne(1, W, 1);
    RingIs(A1);
    Delivers(At(1), At(2), LogAt(1), LogAt(2), CountAt(1), CountAt(2), A1, Third(), [Send(1, W)]);
  }

  lemma FourthHears()
    ensures FifoNext(Ring(), At(2), At(3), Deliver(C1, 0))
  {
    FourthTakes();
    ThroughOne(0, X, 0);
    ThroughOne(0, X, 1);
    RingIs(C1);
    Delivers(At(2), At(3), LogAt(2), LogAt(3), CountAt(2), CountAt(3), C1, Fourth(), [Send(0, X)]);
  }

  lemma SecondHearsFourth()
    ensures FifoNext(Ring(), At(3), At(4), Deliver(D0, 0))
  {
    SecondTakesFourth();
    ThroughOne(0, V, 0);
    ThroughOne(0, V, 1);
    RingIs(D0);
    Delivers(At(3), At(4), LogAt(3), LogAt(4), CountAt(3), CountAt(4), D0, Late(), [Send(0, V)]);
  }

  /** Nothing is said in answer. */
  lemma Silent(i: nat)
    requires i == 4 || i == 6
    ensures Said(LogAt(i), LogAt(i + 1), 1, []) && Counted(CountAt(i), CountAt(i + 1), A0)
  {
    ThroughOne(0, R0, 0);
    ThroughOne(0, R0, 1);
  }

  lemma AnnouncementIn(i: nat)
    requires i == 4 || i == 6
    ensures CountAt(i).Of(A0) < |LogAt(i).Of(A0)| && LogAt(i).Of(A0)[CountAt(i).Of(A0)] == R0
    ensures At(i + 1).net.switches == At(i).net.switches[1 := Second()]
  {
  }

  lemma SecondHearsFirst()
    ensures FifoNext(Ring(), At(4), At(5), Deliver(A0, 0))
  {
    SecondTakesFirst(Late());
    Silent(4);
    AnnouncementIn(4);
    RingIs(A0);
    Delivers(At(4), At(5), LogAt(4), LogAt(5), CountAt(4), CountAt(5), A0, Second(), []);
  }

  lemma FirstHears()
    ensures FifoNext(Ring(), At(5), At(6), Deliver(B0, 0))
  {
    FirstRefuses();
    ThroughOne(0, R0, 0);
    ThroughOne(0, R0, 1);
    RingIs(B0);
    Delivers(At(5), At(6), LogAt(5), LogAt(6), CountAt(5), CountAt(6), B0, First(), [Send(0, R0)]);
  }

  lemma SecondHearsAgain()
    ensures FifoNext(Ring(), At(6), At(7), Deliver(A0, 1))
  {
    SecondTakesFirst(Second());
    Silent(6);
    AnnouncementIn(6);
    RingIs(A0);
    Delivers(At(6), At(7), LogAt(6), LogAt(7), CountAt(6), CountAt(7), A0, Second(), []);
  }

  lemma RingIsQuiet()
    ensures Quiet(Ring(), At(7))
  {
    forall e | e in Ring().link
      ensures e in At(7).received && e in At(7).net.log && At(7).received[e] == |At(7).net.log[e]|
      ensures Ring().link[e] in At(7).net.log && (At(7).net.log[e] != [] || At(7).net.log[Ring().link[e]] != [])
    {
      RingIs(e);
    }
  }

  function ActAt(i: nat): Step {
    if i == 0 then Hello(0) else if i == 1 then Deliver(A1, 0) else if i == 2 then Deliver(C1, 0)
    else if i == 3 then Deliver(D0, 0) else if i == 4 then Deliver(A0, 0) else if i == 5 then Deliver(B0, 0)
    else Deliver(A0, 1)
  }

  lemma FirstSteps(i: nat)
    requires i < 4
    ensures FifoNext(Ring(), At(i), At(i + 1), ActAt(i))
  {
    if i == 0 {
      FirstAnnounces();
    } else if i == 1 {
      ThirdHears();
    } else if i == 2 {
      FourthHears();
    } else {
      SecondHearsFourth();
    }
  }

  lemma LastSteps(i: nat)
    requires 4 <= i < 7
    ensures FifoNext(Ring(), At(i), At(i + 1), ActAt(i))
  {
    if i == 4 {
      SecondHearsFirst();
    } else if i == 5 {
      FirstHears();
    } else {
      SecondHearsAgain();
    }
  }

  lemma RingRun() returns (run: seq<Fifo>, acts: seq<Step>)
    ensures |acts| == 7 && |run| == 8 && IsFifoRun(Ring(), run, acts) && run[|acts|] == At(7)
  {
    Starts();
    run, acts := seq(8, i requires 0 <= i < 8 => At(i)), seq(7, i requires 0 <= i < 7 => ActAt(i));
    forall i | 0 <= i < 7
      ensures FifoStepAt(Ring(), run, acts, i)
    {
      if i < 4 {
        FirstSteps(i);
      } else {
        LastSteps(i);
      }
    }
  }

  /** Switches 2 and 4 at the ends of their link, and switch 4 between 2 and 3. */
  ghost predicate FartherDesignated(n: Net) {
    && |n.switches| == 4
    && var (second, third, fourth) := (n.switches[1], n.switches[2], n.switches[3]);
       && Blocked(n, B1) && !Blocked(n, D0) && Ring().link[B1] == D0
       && Nearer(second.root, second.cost, second.id, fourth.root, fourth.cost, fourth.id)
       && fourth.rootPort == Some(1) && Ring().link[D1].sw == 2
       && Nearer(second.root, second.cost, second.id, third.root, third.cost, third.id)
  }

  /**
   Neither holds in every quiet network: that the designated end of a link is the
   nearer one, and that a root port leads to the nearest of all neighbours.
   */
  lemma FartherEndIsDesignated() returns (run: seq<Fifo>, acts: seq<Step>)
    ensures ValidTopology(Ring()) && IsFifoRun(Ring(), run, acts) && Quiet(Ring(), run[|acts|])
    ensures FartherDesignated(run[|acts|].net)
  {
    RingIsValid();
    RingIsQuiet();
    LastIsFarther();
    run, acts := RingRun();
  }

  lemma LastIsFarther()
    ensures FartherDesignated(At(7).net)
  {
  }
}
