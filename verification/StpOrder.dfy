/**
 Which port and which neighbour a switch prefers, in terms of the numbers in the
 messages, and which end of a link speaks for it in the end.
 */
module StpOrder {
  import opened Options
  import opened StpSwitch
  import opened StpInvariant
  import opened StpNetwork
  import opened StpSafety
  import opened StpLink
  import opened StpFifo

  /** The lower root, then the lower cost, then the lower switch ID. */
  predicate Nearer(r: nat, c: nat, i: nat, r': nat, c': nat, i': nat) {
    r < r' || (r == r' && (c < c' || (c == c' && i < i')))
  }

  /** The same on vectors, and then the lower port ID. */
  predicate Better(v: Vector, w: Vector) {
    || Nearer(v.root, v.cost, v.switch, w.root, w.cost, w.switch)
    || (v.root == w.root && v.cost == w.cost && v.switch == w.switch && v.port < w.port)
  }

  // ----- One switch ------------------------------------------------------------

  /** The root port holds the least vector of the blocked ports, the last of equal ones. */
  lemma RootPortIsLeast(s: Switch)
    ensures RootPort(s).None? <==> forall j :: 0 <= j < |s.ports| ==> Designated(s, j)
    ensures RootPort(s).Some? ==>
              var b := RootPort(s).value;
              && !Designated(s, b)
              && forall j :: 0 <= j < |s.ports| && !Designated(s, j) && j != b ==>
                   Better(s.ports[b], s.ports[j]) || (s.ports[b] == s.ports[j] && j < b)
  {
    BestIsLast(s, true, |s.ports|);
  }

  /** A message from another switch is taken exactly if it is not worse than what the port holds. */
  lemma TakenExactly(s: Switch, p: nat, c: Vector)
    requires p < |s.ports| && c.switch != s.id
    ensures HandleConfig(s, p, c).0.ports[p] == c <==> !Better(s.ports[p], c)
    ensures Better(s.ports[p], c) ==> HandleConfig(s, p, c).0 == s
  {
    if PortCmp(s.ports[p], c) {
      AcceptPorts(s, p, c);
    }
  }

  /** Switch 4 of the ring of four, between the neighbours 2 and 3 at the same distance, chooses 2. */
  lemma FourthPrefersSecond(s: Switch)
    requires s.id == 4 && s.ports == [Vector(1, 1, 2, PortId(1)), Vector(1, 1, 3, PortId(1))]
    ensures RootPort(s) == Some(0)
  {
    RootPortIsLeast(s);
    assert !Designated(s, 0) && !Designated(s, 1);
  }

  // ----- A blocked port against its own switch -------------------------------------

  /** What the blocked port holds is nearer than its own switch. */
  ghost predicate Holds(s: Switch, i: nat) {
    && i < |s.ports| && !Designated(s, i)
    && Nearer(s.ports[i].root, s.ports[i].cost, s.ports[i].switch, s.root, s.cost, s.id)
  }

  /** A message through another port makes the switch nearer than what port `i` holds, or just as near. */
  predicate Overtakes(s: Switch, p: nat, c: Vector, i: nat) {
    && i < |s.ports| && i != p
    && !Nearer(s.ports[i].root, s.ports[i].cost, s.ports[i].switch, c.root, c.cost + PATH_COST, s.id)
  }

  lemma AcceptHolds(s: Switch, p: nat, c: Vector, i: nat)
    requires Coherent(s) && Settled(s) && p < |s.ports| && Foreign(s, c) && PortCmp(s.ports[p], c)
    requires i < |s.ports| && (Designated(s, i) || Holds(s, i)) && !Designated(Accept(s, p, c), i)
    ensures Holds(Accept(s, p, c), i) <==> !Overtakes(s, p, c, i)
  {
    var s' := Accept(s, p, c);
    AcceptPorts(s, p, c);
    AcceptKeeps(s, p, c);
    RootPortIsLeast(s');
    RootPortIsLeast(s);
  }

  ghost predicate OvertakenAt(t: Topology, n: Net, a: Step, e: Endpoint) {
    && Enabled(t, n, a) && Accepts(t, n, a) && t.link[a.from].sw == e.sw
    && Overtakes(n.switches[e.sw], t.link[a.from].port, n.log[a.from][a.k], e.port)
  }

  ghost predicate Held(n: Net, e: Endpoint) {
    e.sw < |n.switches| && Holds(n.switches[e.sw], e.port)
  }

  /** A step leaves a blocked port holding something nearer, except exactly a message that overtakes it. */
  lemma StepHolds(t: Topology, n: Net, n': Net, a: Step, e: Endpoint)
    requires ValidTopology(t) && Inv(t, n) && Next(t, n, n', a) && (Blocked(n, e) ==> Held(n, e)) && Blocked(n', e)
    ensures Held(n', e) <==> !OvertakenAt(t, n, a, e)
  {
    InvTrusts(t, n, a);
    if Accepts(t, n, a) {
      var d := t.link[a.from];
      if d.sw == e.sw {
        AcceptHolds(n.switches[d.sw], d.port, n.log[a.from][a.k], e.port);
      }
    }
  }

  /** No message overtakes what the port holds during the first `i` steps. */
  ghost predicate NeverOvertaken(t: Topology, run: seq<Net>, acts: seq<Step>, e: Endpoint, i: nat)
    requires |run| == |acts| + 1 && i <= |acts|
  {
    forall j :: 0 <= j < i ==> !OvertakenAt(t, run[j], acts[j], e)
  }

  /** Over any run, a blocked port holds something nearer than its switch until a message elsewhere overtakes it. */
  lemma {:induction false} RunHolds(t: Topology, run: seq<Net>, acts: seq<Step>, e: Endpoint, i: nat)
    requires ValidTopology(t) && IsRun(t, run, acts) && i <= |acts| && NeverOvertaken(t, run, acts, e, i)
    ensures Blocked(run[i], e) ==> Held(run[i], e)
  {
    if i == 0 {
      RunStart(t, run, acts);
      NoneBlockedFirst(t, run[0], e);
    } else {
      RunHolds(t, run, acts, e, i - 1);
      RunStepHolds(t, run, acts, e, i - 1);
    }
  }

  lemma RunStepHolds(t: Topology, run: seq<Net>, acts: seq<Step>, e: Endpoint, i: nat)
    requires ValidTopology(t) && IsRun(t, run, acts) && i < |acts| && !OvertakenAt(t, run[i], acts[i], e)
    requires Blocked(run[i], e) ==> Held(run[i], e)
    ensures Blocked(run[i + 1], e) ==> Held(run[i + 1], e)
  {
    RunInv(t, run, acts, i);
    assert StepAt(t, run, acts, i);
    if Blocked(run[i + 1], e) {
      StepHolds(t, run[i], run[i + 1], acts[i], e);
    }
  }

  lemma NoneBlockedFirst(t: Topology, n: Net, e: Endpoint)
    requires ValidTopology(t) && Init(t, n)
    ensures !Blocked(n, e)
  {
    if e.sw < |n.switches| {
      assert n.switches[e.sw] == InitSwitch(t.ids[e.sw], t.nports[e.sw]);
    }
  }

  /** What is held is one hop nearer to the same root, or as near with the lower switch ID. */
  lemma HoldsIs(s: Switch, i: nat)
    requires Coherent(s) && i < |s.ports| && !Designated(s, i)
    ensures var v := s.ports[i];
            Holds(s, i) <==> v.root == s.root && (v.cost + 1 == s.cost || (v.cost == s.cost && v.switch < s.id))
  {
    RootPortIsLeast(s);
  }

  // ----- Quiet networks ----------------------------------------------------------------

  lemma SwitchFacts(t: Topology, f: Fifo, u: nat)
    requires FifoInv(t, f) && u < |f.net.switches|
    ensures Coherent(f.net.switches[u]) && u < |t.ids| && f.net.switches[u].id == t.ids[u]
  {
  }

  /** In a quiet network a blocked port holds what the other end of its link believes now. */
  lemma BlockedHoldsNeighbour(t: Topology, f: Fifo, e: Endpoint)
    requires ValidTopology(t) && FifoInv(t, f) && Quiet(t, f) && e in t.link && Blocked(f.net, e)
    ensures Linked(t, e) && !Blocked(f.net, t.link[e])
    ensures var o := t.link[e];
            o.sw < |f.net.switches| && f.net.switches[e.sw].ports[e.port] == Own(f.net.switches[o.sw], o.port)
  {
    assert Linked(t, e) && Linked(t, t.link[e]);
    QuietLinksAgree(t, f, e);
  }

  /**
   In a quiet network the designated end of a link is nearer than the other end
   exactly if the blocked port has not been overtaken; it is then one hop nearer to
   the same root, or as near with the lower switch ID.
   */
  lemma DesignatedIsNearerExactly(t: Topology, f: Fifo, e: Endpoint)
    requires ValidTopology(t) && FifoInv(t, f) && Quiet(t, f) && e in t.link && Blocked(f.net, e)
    ensures t.link[e].sw < |f.net.switches|
    ensures var (s, d) := (f.net.switches[e.sw], f.net.switches[t.link[e].sw]);
            && (Nearer(d.root, d.cost, d.id, s.root, s.cost, s.id) <==> Held(f.net, e))
            && (Held(f.net, e) <==> d.root == s.root && (d.cost + 1 == s.cost || (d.cost == s.cost && d.id < s.id)))
  {
    BlockedHoldsNeighbour(t, f, e);
    SwitchFacts(t, f, e.sw);
    SwitchFacts(t, f, t.link[e].sw);
    HoldsIs(f.net.switches[e.sw], e.port);
  }

  lemma OtherEndsDiffer(t: Topology, e: Endpoint, e': Endpoint)
    requires ValidTopology(t) && e in t.link && e' in t.link && e != e'
    ensures t.link[e] != t.link[e']
    ensures forall s, u :: 0 <= s < |t.ids| && 0 <= u < |t.ids| && t.ids[s] == t.ids[u] ==> s == u
  {
    assert Linked(t, e) && Linked(t, e');
  }

  lemma BetterVectors(s: Switch, i: nat, j: nat)
    requires Coherent(s) && s.rootPort == Some(i) && j < |s.ports| && !Designated(s, j) && i != j
    ensures i < |s.ports| && (Better(s.ports[i], s.ports[j]) || s.ports[i] == s.ports[j])
  {
    RootPortIsLeast(s);
  }

  /** Of the neighbours behind blocked ports the root port leads to the nearest, and to its lowest port. */
  lemma RootPortLeadsToNearest(t: Topology, f: Fifo, e: Endpoint, e': Endpoint)
    requires ValidTopology(t) && FifoInv(t, f) && Quiet(t, f) && e in t.link && e' in t.link && e.sw == e'.sw && e != e'
    requires e.sw < |f.net.switches| && f.net.switches[e.sw].rootPort == Some(e.port) && Blocked(f.net, e')
    ensures t.link[e].sw < |f.net.switches| && t.link[e'].sw < |f.net.switches|
    ensures var (o, o') := (t.link[e], t.link[e']);
            var (d, d') := (f.net.switches[o.sw], f.net.switches[o'.sw]);
            Nearer(d.root, d.cost, d.id, d'.root, d'.cost, d'.id) || (o.sw == o'.sw && o.port < o'.port)
  {
    RootPortBlocked(t, f.net, e.sw);
    BlockedHoldsNeighbour(t, f, e);
    BlockedHoldsNeighbour(t, f, e');
    SwitchFacts(t, f, e.sw);
    SwitchFacts(t, f, t.link[e].sw);
    SwitchFacts(t, f, t.link[e'].sw);
    OtherEndsDiffer(t, e, e');
    BetterVectors(f.net.switches[e.sw], e.port, e'.port);
  }

  /** If no port has been overtaken, it leads to the nearest of all neighbours. */
  lemma RootPortLeadsToNearestOfAll(t: Topology, f: Fifo, e: Endpoint, e': Endpoint)
    requires ValidTopology(t) && FifoInv(t, f) && Quiet(t, f) && e in t.link && e' in t.link && e.sw == e'.sw && e != e'
    requires e.sw < |f.net.switches| && f.net.switches[e.sw].rootPort == Some(e.port)
    requires forall x :: x in t.link && Blocked(f.net, x) ==> Held(f.net, x)
    ensures t.link[e].sw < |f.net.switches| && t.link[e'].sw < |f.net.switches|
    ensures var (o, o') := (t.link[e], t.link[e']);
            var (d, d') := (f.net.switches[o.sw], f.net.switches[o'.sw]);
            Nearer(d.root, d.cost, d.id, d'.root, d'.cost, d'.id) || (o.sw == o'.sw && o.port < o'.port)
  {
    if Blocked(f.net, e') {
      RootPortLeadsToNearest(t, f, e, e');
    } else {
      RootPortBlocked(t, f.net, e.sw);
      BlockedHoldsNeighbour(t, f, e);
      assert Linked(t, e') && Linked(t, t.link[e']);
      QuietLinksAgree(t, f, e');
      DesignatedIsNearerExactly(t, f, t.link[e']);
    }
  }
}
