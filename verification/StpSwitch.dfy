/**
 One spanning-tree switch: its priority vectors, the handling of a received
 configuration message and the hello timer.  `Stp` is the object the switch
 updates in place; `Switch` and the functions on it say what each of its
 operations computes.
 */
module StpSwitch {
  import opened Options

  const STP_PORT_PRIORITY := 128
  const STP_MAX_PORTS := 32
  const STP_HELLO_TIME := 512 // 2000 * 256 / 1000 ticks
  const PATH_COST := 1

  /** The four compared fields of a port, and of a configuration message. */
  datatype Vector = Vector(root: nat, cost: nat, switch: nat, port: nat)

  /** What a switch believes: the root and its own distance to it. */
  datatype Belief = Belief(root: nat, cost: nat)

  /** A message leaving through a port. */
  datatype Send = Send(port: nat, config: Vector)

  datatype Switch = Switch(
    id: nat,
    root: nat,
    cost: nat,
    rootPort: Option<nat>,
    ports: seq<Vector>,
    hello: bool)

  function PortId(i: nat): nat {
    STP_PORT_PRIORITY * 256 + i + 1
  }

  // ----- Orders ----------------------------------------------------------

  /** `port_cmp`: whether the second vector may replace the first. */
  predicate PortCmp(p1: Vector, p2: Vector) {
    if p1.root != p2.root then p1.root > p2.root
    else if p1.cost != p2.cost then p1.cost > p2.cost
    else if p1.switch != p2.switch then p1.switch > p2.switch
    else p1.port >= p2.port
  }

  predicate Lt(b: Belief, c: Belief) {
    b.root < c.root || (b.root == c.root && b.cost < c.cost)
  }

  predicate Le(b: Belief, c: Belief) {
    b == c || Lt(b, c)
  }

  function Pair(v: Vector): Belief {
    Belief(v.root, v.cost)
  }

  function BeliefOf(s: Switch): Belief {
    Belief(s.root, s.cost)
  }

  /** `port_cmp` is a total order read backwards, so "not replaceable" is "strictly better". */
  lemma PortCmpIsTotalOrder(a: Vector, b: Vector, c: Vector)
    ensures PortCmp(a, a)
    ensures PortCmp(a, b) || PortCmp(b, a)
    ensures PortCmp(a, b) && PortCmp(b, a) ==> a == b
    ensures PortCmp(a, b) && PortCmp(b, c) ==> PortCmp(a, c)
  {
  }

  // ----- Ports -----------------------------------------------------------

  predicate IsRoot(s: Switch) {
    s.root == s.id
  }

  predicate Designated(s: Switch, i: nat)
    requires i < |s.ports|
  {
    s.ports[i].switch == s.id && s.ports[i].port == PortId(i)
  }

  /** What the switch says about itself through port `i`. */
  function Own(s: Switch, i: nat): Vector {
    Vector(s.root, s.cost, s.id, PortId(i))
  }

  /** The scan over the first `n` ports; a later equal vector wins.  `blocked` skips designated ports. */
  function Best(s: Switch, blocked: bool, n: nat): (b: Option<nat>)
    requires n <= |s.ports|
    ensures b.Some? ==> b.value < n
  {
    if n == 0 then None else
    var b := Best(s, blocked, n - 1);
    if blocked && Designated(s, n - 1) then b
    else if b.None? || PortCmp(s.ports[b.value], s.ports[n - 1]) then Some(n - 1)
    else b
  }

  function RootPort(s: Switch): Option<nat> {
    Best(s, true, |s.ports|)
  }

  /** The scan finds a candidate no other candidate improves on, and the last such. */
  lemma {:induction false} BestIsLast(s: Switch, blocked: bool, n: nat)
    requires n <= |s.ports|
    ensures Best(s, blocked, n).None? <==> forall j :: 0 <= j < n ==> blocked && Designated(s, j)
    ensures var b := Best(s, blocked, n);
            b.Some? ==>
              && (blocked ==> !Designated(s, b.value))
              && (forall j :: 0 <= j < n && !(blocked && Designated(s, j)) ==> PortCmp(s.ports[j], s.ports[b.value]))
              && (forall j :: b.value < j < n && !(blocked && Designated(s, j)) ==>
                    !PortCmp(s.ports[b.value], s.ports[j]))
  {
    if n > 0 {
      BestIsLast(s, blocked, n - 1);
      assert Designated(s, n - 1) || !Designated(s, n - 1);
    }
  }

  /** The second selection of the handler never leads anywhere: the overall best port is the root port or designated. */
  lemma BestOverallIsRootOrDesignated(s: Switch)
    requires |s.ports| > 0
    ensures Best(s, false, |s.ports|).Some?
    ensures var m := Best(s, false, |s.ports|);
            m == RootPort(s) || Designated(s, m.value)
  {
    BestIsLast(s, false, |s.ports|);
    BestIsLast(s, true, |s.ports|);
  }

  // ----- Sending ---------------------------------------------------------

  function SendConfig(s: Switch, i: nat): seq<Send> {
    if !IsRoot(s) && s.rootPort.None? then [] else [Send(i, Own(s, i))]
  }

  function SendConfigs(s: Switch, n: nat): seq<Send>
    requires n <= |s.ports|
  {
    if n == 0 then []
    else SendConfigs(s, n - 1) + if Designated(s, n - 1) then SendConfig(s, n - 1) else []
  }

  lemma {:induction false} SendConfigsIgnoresTimer(s: Switch, hello: bool, n: nat)
    requires n <= |s.ports|
    ensures SendConfigs(s.(hello := hello), n) == SendConfigs(s, n)
  {
    if n > 0 {
      SendConfigsIgnoresTimer(s, hello, n - 1);
    }
  }

  /** The messages of a batch that leave through port `i`, in order. */
  function Through(out: seq<Send>, i: nat): seq<Vector> {
    if out == [] then []
    else Through(out[..|out| - 1], i) + if out[|out| - 1].port == i then [out[|out| - 1].config] else []
  }

  // ----- Receiving -------------------------------------------------------

  function Adopt(s: Switch, rp: Option<nat>): Switch
    requires rp.Some? ==> rp.value < |s.ports|
  {
    if rp.Some? then
      s.(rootPort := rp, root := s.ports[rp.value].root, cost := s.ports[rp.value].cost + PATH_COST,
         hello := if IsRoot(s) then false else s.hello)
    else
      s.(rootPort := rp, root := s.id, cost := 0)
  }

  function Relabel(s: Switch, m: Option<nat>, p: nat): Switch
    requires m.Some? ==> m.value < |s.ports|
  {
    if m.Some? && m != s.rootPort && !Designated(s, m.value) then
      s.(ports := s.ports[m.value := s.ports[m.value].(switch := s.id, port := PortId(p))])
    else s
  }

  /** Designated ports take over the switch's new root and cost. */
  function RefreshPort(s: Switch, i: nat): Vector
    requires i < |s.ports|
  {
    if Designated(s, i) then s.ports[i].(root := s.root, cost := s.cost) else s.ports[i]
  }

  function Refresh(s: Switch): Switch {
    s.(ports := seq(|s.ports|, i requires 0 <= i < |s.ports| => RefreshPort(s, i)))
  }

  function Accept(s: Switch, p: nat, c: Vector): Switch
    requires p < |s.ports|
  {
    var s1 := s.(ports := s.ports[p := c]);
    Refresh(Relabel(Adopt(s1, RootPort(s1)), Best(s1, false, |s1.ports|), p))
  }

  function HandleConfig(s: Switch, p: nat, c: Vector): (Switch, seq<Send>)
    requires p < |s.ports|
  {
    if !PortCmp(s.ports[p], c) then (s, SendConfig(s, p))
    else var s' := Accept(s, p, c); (s', SendConfigs(s', |s'.ports|))
  }

  function InitSwitch(id: nat, nports: nat): Switch {
    Switch(id, id, 0, None, seq(nports, (i: nat) => Vector(id, 0, id, PortId(i))), true)
  }

  // ----- The object ------------------------------------------------------

  class Stp {
    const switchId: nat
    const ports: array<Vector>
    var designatedRoot: nat
    var rootPathCost: nat
    var rootPort: Option<nat>
    var helloActive: bool
    var helloTime: int

    ghost function State(): Switch
      reads this, ports
    {
      Switch(switchId, designatedRoot, rootPathCost, rootPort, ports[..], helloActive)
    }

    constructor (id: nat, nports: nat, now: int)
      requires 0 < nports <= STP_MAX_PORTS
      ensures fresh(ports)
      ensures State() == InitSwitch(id, nports)
      ensures helloTime == now
    {
      switchId, designatedRoot, rootPathCost, rootPort := id, id, 0, None;
      helloActive, helloTime := true, now;
      ports := new Vector[nports](i => Vector(id, 0, id, STP_PORT_PRIORITY * 256 + (if i >= 0 then i else 0) + 1));
      new;
      assert ports[..] == InitSwitch(id, nports).ports;
    }

    predicate PortIsDesignated(i: nat)
      requires i < ports.Length
      reads this, ports
    {
      ports[i].switch == switchId && ports[i].port == PortId(i)
    }

    method PortSendConfig(i: nat) returns (out: seq<Send>)
      ensures out == SendConfig(State(), i)
    {
      if designatedRoot != switchId && rootPort.None? {
        return [];
      }
      out := [Send(i, Vector(designatedRoot, rootPathCost, switchId, PortId(i)))];
    }

    method SendAll() returns (out: seq<Send>)
      ensures out == SendConfigs(State(), |State().ports|)
    {
      out := [];
      for i := 0 to ports.Length
        invariant out == SendConfigs(State(), i)
      {
        if PortIsDesignated(i) {
          var o := PortSendConfig(i);
          out := out + o;
        }
      }
    }

    /** The two selections, interleaved in one scan. */
    method SelectPorts() returns (newRoot: Option<nat>, best: Option<nat>)
      ensures newRoot == RootPort(State()) && best == Best(State(), false, ports.Length)
    {
      newRoot, best := None, None;
      for i := 0 to ports.Length
        invariant newRoot == Best(State(), true, i) && best == Best(State(), false, i)
      {
        if best.None? || PortCmp(ports[best.value], ports[i]) {
          best := Some(i);
        }
        if !PortIsDesignated(i) {
          if newRoot.None? || PortCmp(ports[newRoot.value], ports[i]) {
            newRoot := Some(i);
          }
        }
      }
    }

    method UpdateRoot(newRoot: Option<nat>, isRoot: bool)
      requires newRoot.Some? ==> newRoot.value < ports.Length
      requires isRoot == IsRoot(State())
      modifies this`rootPort, this`designatedRoot, this`rootPathCost, this`helloActive
      ensures State() == Adopt(old(State()), newRoot)
    {
      rootPort := newRoot;
      if newRoot.Some? {
        designatedRoot := ports[newRoot.value].root;
        rootPathCost := ports[newRoot.value].cost + PATH_COST;
        if isRoot {
          helloActive := false;
        }
      } else {
        designatedRoot := switchId;
        rootPathCost := 0;
      }
    }

    method UpdateDesignated()
      modifies ports
      ensures State() == Refresh(old(State()))
    {
      ghost var s := State();
      for i := 0 to ports.Length
        invariant forall j :: 0 <= j < i ==> ports[j] == RefreshPort(s, j)
        invariant forall j :: i <= j < ports.Length ==> ports[j] == s.ports[j]
      {
        if PortIsDesignated(i) {
          ports[i] := ports[i].(root := designatedRoot, cost := rootPathCost);
        }
      }
      assert State().ports == Refresh(s).ports;
    }

    method HandleConfigPacket(p: nat, config: Vector) returns (out: seq<Send>)
      requires p < ports.Length
      modifies this, ports
      ensures (State(), out) == HandleConfig(old(State()), p, config)
      ensures helloTime == old(helloTime)
    {
      if !PortCmp(ports[p], config) {
        out := PortSendConfig(p);
        return;
      }
      var isRoot := designatedRoot == switchId;
      ports[p] := config;
      assert State() == old(State()).(ports := old(State()).ports[p := config]);
      var newRoot, best := SelectPorts();
      UpdateRoot(newRoot, isRoot);
      ghost var s2 := State();
      if best.Some? && best != rootPort && !PortIsDesignated(best.value) {
        ports[best.value] := ports[best.value].(switch := switchId, port := PortId(p));
      }
      assert State() == Relabel(s2, best, p);
      UpdateDesignated();
      out := SendAll();
    }

    /**
     One pass of the timer thread: the hello timer fires at most once and is
     started again at a second reading of the clock.
     */
    method TimerRunOnce(now: int, restart: int) returns (fired: bool, out: seq<Send>)
      modifies this`helloActive, this`helloTime
      ensures fired == (old(helloActive) && now >= old(helloTime) + STP_HELLO_TIME)
      ensures State() == old(State())
      ensures fired ==> helloTime == restart && out == SendConfigs(State(), |State().ports|)
      ensures !fired ==> helloTime == old(helloTime) && out == []
    {
      fired, out := false, [];
      if helloActive && now >= helloTime + STP_HELLO_TIME {
        helloActive := false;
        fired := true;
      }
      if fired {
        out := SendAll();
        SendConfigsIgnoresTimer(State(), true, ports.Length);
        helloActive, helloTime := true, restart;
      }
    }
  }
}
