/**
 A network of spanning-tree switches.  The log keeps every message ever sent
 through each port; a delivery hands any logged message to the other end of
 the link.  Loss, delay, reordering and duplication are therefore all runs of
 this one state machine.
 */
module StpNetwork {
  import opened StpSwitch
  import opened StpInvariant

  datatype Endpoint = Endpoint(sw: nat, port: nat)

  datatype Topology = Topology(ids: seq<nat>, nports: seq<nat>, link: map<Endpoint, Endpoint>)

  datatype Net = Net(switches: seq<Switch>, log: map<Endpoint, seq<Vector>>)

  datatype Step = Deliver(from: Endpoint, k: nat) | Hello(sw: nat)

  ghost predicate InRange(t: Topology, e: Endpoint) {
    e.sw < |t.ids| == |t.nports| && e.port < t.nports[e.sw]
  }

  /** Distinct switch IDs, and point-to-point links between different switches. */
  ghost predicate ValidTopology(t: Topology) {
    && |t.ids| == |t.nports|
    && (forall s :: 0 <= s < |t.nports| ==> 0 < t.nports[s] <= STP_MAX_PORTS)
    && (forall s, u :: 0 <= s < |t.ids| && 0 <= u < |t.ids| && t.ids[s] == t.ids[u] ==> s == u)
    && (forall e {:trigger Linked(t, e)} :: e in t.link ==> Linked(t, e))
  }

  /** `e` and the port it is linked to are the two ends of one link. */
  ghost predicate Linked(t: Topology, e: Endpoint) {
    && e in t.link && t.link[e] in t.link && t.link[t.link[e]] == e
    && InRange(t, e) && InRange(t, t.link[e]) && t.link[e].sw != e.sw
  }

  function Record(log: map<Endpoint, seq<Vector>>, sw: nat, out: seq<Send>): map<Endpoint, seq<Vector>> {
    map e | e in log :: if e.sw == sw then log[e] + Through(out, e.port) else log[e]
  }

  ghost predicate Init(t: Topology, n: Net) {
    && n.switches == seq(|t.ids|, i requires 0 <= i < |t.ids| =>
         InitSwitch(t.ids[i], if i < |t.nports| then t.nports[i] else 0))
    && n.log == map e | e in t.link :: []
  }

  ghost predicate Enabled(t: Topology, n: Net, a: Step) {
    match a
    case Deliver(e, k) =>
      && e in t.link && e in n.log && k < |n.log[e]|
      && t.link[e].sw < |n.switches| && t.link[e].port < |n.switches[t.link[e].sw].ports|
    case Hello(s) => s < |n.switches| && n.switches[s].hello
  }

  /** The switch that takes the step, its new state, and what it sends. */
  ghost function Outcome(t: Topology, n: Net, a: Step): (nat, Switch, seq<Send>)
    requires Enabled(t, n, a)
  {
    match a
    case Deliver(e, k) =>
      var d := t.link[e];
      var (s', out) := HandleConfig(n.switches[d.sw], d.port, n.log[e][k]);
      (d.sw, s', out)
    case Hello(s) => (s, n.switches[s], SendConfigs(n.switches[s], |n.switches[s].ports|))
  }

  ghost predicate Next(t: Topology, n: Net, n': Net, a: Step) {
    && Enabled(t, n, a)
    && var (d, s', out) := Outcome(t, n, a);
       && d < |n.switches|
       && n' == Net(n.switches[d := s'], Record(n.log, d, out))
  }

  ghost predicate IsRun(t: Topology, run: seq<Net>, acts: seq<Step>) {
    && |run| == |acts| + 1
    && Init(t, run[0])
    && forall i {:trigger StepAt(t, run, acts, i)} :: 0 <= i < |acts| ==> StepAt(t, run, acts, i)
  }

  ghost predicate StepAt(t: Topology, run: seq<Net>, acts: seq<Step>, i: nat)
    requires |run| == |acts| + 1 && i < |acts|
  {
    Next(t, run[i], run[i + 1], acts[i])
  }

  // ----- What every reachable state satisfies ----------------------------

  /** A simple path from `x` to the switch called `r`, each of whose switches already does at least as well. */
  ghost predicate GroundPath(t: Topology, n: Net, path: seq<nat>, x: nat, r: nat, c: nat) {
    && |path| == c + 1 && path[0] == x
    && (forall j :: 0 <= j < |path| ==> path[j] < |t.ids| && path[j] < |n.switches|)
    && t.ids[path[c]] == r
    && (forall i, j :: 0 <= i < j < |path| ==> path[i] != path[j])
    && (forall j :: 0 <= j < c ==> Adjacent(t, path[j], path[j + 1]))
    && (forall j :: 0 <= j <= c ==> Le(BeliefOf(n.switches[path[j]]), Belief(r, c - j)))
  }

  ghost predicate Adjacent(t: Topology, x: nat, y: nat) {
    exists e :: e in t.link && e.sw == x && t.link[e].sw == y
  }

  ghost predicate Grounded(t: Topology, n: Net, x: nat, r: nat, c: nat) {
    exists path :: GroundPath(t, n, path, x, r, c)
  }

  /** A vector the switch at `e` once sent from there; that switch has only improved since. */
  ghost predicate Truthful(t: Topology, n: Net, e: Endpoint, v: Vector)
    requires e.sw < |t.ids| && e.sw < |n.switches|
  {
    && v.switch == t.ids[e.sw] && v.port == PortId(e.port)
    && Le(BeliefOf(n.switches[e.sw]), Pair(v))
    && Grounded(t, n, e.sw, v.root, v.cost)
  }

  ghost predicate Shape(t: Topology, n: Net) {
    && |n.switches| == |t.ids| == |t.nports|
    && n.log.Keys == t.link.Keys
    && forall s :: 0 <= s < |t.ids| ==>
         && n.switches[s].id == t.ids[s] && |n.switches[s].ports| == t.nports[s]
         && Coherent(n.switches[s]) && Settled(n.switches[s])
  }

  ghost predicate BeliefsGrounded(t: Topology, n: Net) {
    forall s :: 0 <= s < |t.ids| && s < |n.switches| ==> Grounded(t, n, s, n.switches[s].root, n.switches[s].cost)
  }

  ghost predicate MessagesTruthful(t: Topology, n: Net) {
    forall e, k :: e in n.log && 0 <= k < |n.log[e]| ==> MessageTruthful(t, n, e, k)
  }

  ghost predicate MessageTruthful(t: Topology, n: Net, e: Endpoint, k: nat)
    requires e in n.log && k < |n.log[e]|
  {
    InRange(t, e) && e.sw < |n.switches| && Truthful(t, n, e, n.log[e][k])
  }

  ghost predicate Blocked(n: Net, e: Endpoint) {
    e.sw < |n.switches| && e.port < |n.switches[e.sw].ports| && !Designated(n.switches[e.sw], e.port)
  }

  ghost predicate BlockedTruthful(t: Topology, n: Net) {
    forall e :: Blocked(n, e) ==>
      Linked(t, e) && t.link[e].sw < |n.switches| && Truthful(t, n, t.link[e], n.switches[e.sw].ports[e.port])
  }

  ghost predicate Inv(t: Topology, n: Net) {
    Shape(t, n) && BeliefsGrounded(t, n) && MessagesTruthful(t, n) && BlockedTruthful(t, n)
  }

  /** The step from `n` to `n'` only improved what switches believe. */
  ghost predicate Improves(n: Net, n': Net) {
    && |n'.switches| == |n.switches|
    && forall s :: 0 <= s < |n.switches| ==> Le(BeliefOf(n'.switches[s]), BeliefOf(n.switches[s]))
  }

  lemma GroundedPersists(t: Topology, n: Net, n': Net, x: nat, r: nat, c: nat)
    requires Improves(n, n') && Grounded(t, n, x, r, c)
    ensures Grounded(t, n', x, r, c)
  {
    var path :| GroundPath(t, n, path, x, r, c);
    forall j | 0 <= j <= c
      ensures Le(BeliefOf(n'.switches[path[j]]), Belief(r, c - j))
    {
      assert Le(BeliefOf(n.switches[path[j]]), Belief(r, c - j));
    }
    assert GroundPath(t, n', path, x, r, c);
  }

  lemma TruthfulPersists(t: Topology, n: Net, n': Net, e: Endpoint, v: Vector)
    requires Improves(n, n') && e.sw < |t.ids| && e.sw < |n.switches| && Truthful(t, n, e, v)
    ensures Truthful(t, n', e, v)
  {
    GroundedPersists(t, n, n', e.sw, v.root, v.cost);
  }

  lemma InitInv(t: Topology, n: Net)
    requires ValidTopology(t) && Init(t, n)
    ensures Inv(t, n)
  {
    forall s | 0 <= s < |t.ids|
      ensures n.switches[s] == InitSwitch(t.ids[s], t.nports[s])
      ensures Coherent(n.switches[s]) && Settled(n.switches[s])
      ensures Grounded(t, n, s, n.switches[s].root, n.switches[s].cost)
    {
      InitCoherent(t.ids[s], t.nports[s]);
      assert GroundPath(t, n, [s], s, t.ids[s], 0);
    }
  }

  /** A truthful message from across a link is one the receiver can trust to be foreign. */
  lemma TruthfulIsForeign(t: Topology, n: Net, e: Endpoint, v: Vector)
    requires ValidTopology(t) && Shape(t, n) && Linked(t, e) && Truthful(t, n, e, v)
    ensures Foreign(n.switches[t.link[e].sw], v)
  {
    var path :| GroundPath(t, n, path, e.sw, v.root, v.cost);
  }

  /**
   The new belief of a switch is grounded: its path goes through its root port.
   The switch cannot already be on that path, or it would be getting worse.
   */
  lemma PathThroughRootPort(t: Topology, n: Net, s: nat, u: nat, path: seq<nat>, r: nat, c: nat)
    requires s < |t.ids| == |n.switches| && Adjacent(t, s, u)
    requires GroundPath(t, n, path, u, r, c)
    requires BeliefOf(n.switches[s]) == Belief(r, c + 1)
    ensures GroundPath(t, n, [s] + path, s, r, c + 1)
  {
    assert forall j :: 0 <= j < |path| ==> path[j] != s by {
      forall j | 0 <= j < |path|
        ensures path[j] != s
      {
        assert Le(BeliefOf(n.switches[path[j]]), Belief(r, c - j));
      }
    }
    var longer := [s] + path;
    forall j | 0 <= j < c + 1
      ensures Adjacent(t, longer[j], longer[j + 1])
    {
      if j > 0 {
        assert Adjacent(t, path[j - 1], path[j]);
      }
    }
    forall j | 0 <= j <= c + 1
      ensures Le(BeliefOf(n.switches[longer[j]]), Belief(r, c + 1 - j))
    {
      if j > 0 {
        assert Le(BeliefOf(n.switches[path[j - 1]]), Belief(r, c - (j - 1)));
      }
    }
  }

  lemma BeliefGrounded(t: Topology, n: Net, s: nat)
    requires Shape(t, n) && s < |t.ids|
    requires n.switches[s].rootPort.Some? ==>
               var e := Endpoint(s, n.switches[s].rootPort.value);
               Linked(t, e) && Truthful(t, n, t.link[e], n.switches[s].ports[e.port])
    ensures Grounded(t, n, s, n.switches[s].root, n.switches[s].cost)
  {
    var w := n.switches[s];
    if w.rootPort.Some? {
      var e := Endpoint(s, w.rootPort.value);
      var v := w.ports[e.port];
      var path :| GroundPath(t, n, path, t.link[e].sw, v.root, v.cost);
      assert Adjacent(t, s, t.link[e].sw);
      PathThroughRootPort(t, n, s, t.link[e].sw, path, v.root, v.cost);
    } else {
      assert GroundPath(t, n, [s], s, t.ids[s], 0);
    }
  }

  // ----- One step, seen from the switch that takes it --------------------

  /** What a step needs to know about the message it delivers. */
  ghost predicate Trusted(t: Topology, n: Net, a: Step) {
    a.Deliver? && a.from in n.log && a.k < |n.log[a.from]| ==>
      && Linked(t, a.from) && t.link[a.from].sw < |n.switches|
      && Foreign(n.switches[t.link[a.from].sw], n.log[a.from][a.k])
  }

  lemma InvTrusts(t: Topology, n: Net, a: Step)
    requires ValidTopology(t) && Inv(t, n) && Enabled(t, n, a)
    ensures Trusted(t, n, a)
  {
    if a.Deliver? {
      assert Linked(t, a.from);
      assert MessageTruthful(t, n, a.from, a.k);
      TruthfulIsForeign(t, n, a.from, n.log[a.from][a.k]);
    }
  }

  ghost predicate Accepts(t: Topology, n: Net, a: Step)
    requires Enabled(t, n, a)
  {
    a.Deliver? && PortCmp(n.switches[t.link[a.from].sw].ports[t.link[a.from].port], n.log[a.from][a.k])
  }

  /** Whatever a switch sends in a step says what it believes after the step. */
  lemma OutcomeSaysOwn(t: Topology, n: Net, a: Step, i: nat)
    requires Shape(t, n) && Enabled(t, n, a) && Trusted(t, n, a)
    requires Outcome(t, n, a).0 < |t.ids|
    ensures var (d, s', out) := Outcome(t, n, a);
      && Coherent(s') && Settled(s') && s'.id == t.ids[d] && |s'.ports| == t.nports[d]
      && (!Accepts(t, n, a) ==> s' == n.switches[d])
      && Through(out, i) == if (if a.Deliver? && !Accepts(t, n, a) then i == t.link[a.from].port
                                else i < |s'.ports| && Designated(s', i)) then [Own(s', i)] else []
  {
    var (d, s', out) := Outcome(t, n, a);
    var s := n.switches[d];
    match a {
      case Deliver(e, k) =>
        var p := t.link[e].port;
        if PortCmp(s.ports[p], n.log[e][k]) {
          AcceptKeeps(s, p, n.log[e][k]);
          AcceptPorts(s, p, n.log[e][k]);
          BroadcastSaysOwn(s', |s'.ports|, i);
        } else {
          ReplySaysOwn(s, p, i);
        }
      case Hello(_) =>
        BroadcastSaysOwn(s, |s.ports|, i);
    }
  }

  /** A step keeps every old message and adds at most one per port, which states the sender's new belief. */
  lemma StepLog(t: Topology, n: Net, n': Net, a: Step, e: Endpoint)
    requires Shape(t, n) && Next(t, n, n', a) && Trusted(t, n, a)
    requires e in n.log && e.sw < |t.ids|
    ensures e in n'.log && (n'.log[e] == n.log[e] || n'.log[e] == n.log[e] + [Own(n'.switches[e.sw], e.port)])
  {
    if e.sw == Outcome(t, n, a).0 {
      OutcomeSaysOwn(t, n, a, e.port);
    }
  }

  lemma StepShape(t: Topology, n: Net, n': Net, a: Step)
    requires Shape(t, n) && Next(t, n, n', a) && Trusted(t, n, a)
    ensures Shape(t, n') && Improves(n, n')
    ensures var d := Outcome(t, n, a).0;
            forall i :: 0 <= i < t.nports[d] ==> PortCmp(n.switches[d].ports[i], n'.switches[d].ports[i])
  {
    OutcomeSaysOwn(t, n, a, 0);
    if Accepts(t, n, a) {
      var e := t.link[a.from];
      AcceptKeeps(n.switches[e.sw], e.port, n.log[a.from][a.k]);
    }
  }

  /** A blocked port holds what it held before, or the message just delivered to it. */
  lemma StepBlocked(t: Topology, n: Net, n': Net, a: Step, e: Endpoint)
    requires Shape(t, n) && Next(t, n, n', a) && Trusted(t, n, a)
    requires Blocked(n', e)
    ensures
      || (Blocked(n, e) && n'.switches[e.sw].ports[e.port] == n.switches[e.sw].ports[e.port])
      || (Accepts(t, n, a) && e == t.link[a.from] && n'.switches[e.sw].ports[e.port] == n.log[a.from][a.k])
  {
    if Accepts(t, n, a) {
      var d := t.link[a.from];
      AcceptPorts(n.switches[d.sw], d.port, n.log[a.from][a.k]);
    }
  }

  lemma StepBlockedTruthful(t: Topology, n: Net, n': Net, a: Step)
    requires Shape(t, n) && MessagesTruthful(t, n) && BlockedTruthful(t, n)
    requires Next(t, n, n', a) && Trusted(t, n, a) && Improves(n, n')
    ensures BlockedTruthful(t, n')
  {
    forall e | Blocked(n', e)
      ensures Linked(t, e) && t.link[e].sw < |n'.switches|
                && Truthful(t, n', t.link[e], n'.switches[e.sw].ports[e.port])
    {
      StepBlocked(t, n, n', a, e);
      if Blocked(n, e) && n'.switches[e.sw].ports[e.port] == n.switches[e.sw].ports[e.port] {
        TruthfulPersists(t, n, n', t.link[e], n.switches[e.sw].ports[e.port]);
      } else {
        assert Linked(t, a.from) && Linked(t, e);
        assert MessageTruthful(t, n, a.from, a.k);
        TruthfulPersists(t, n, n', a.from, n.log[a.from][a.k]);
      }
    }
  }

  lemma StepBeliefsGrounded(t: Topology, n: Net)
    requires Shape(t, n) && BlockedTruthful(t, n)
    ensures BeliefsGrounded(t, n)
  {
    forall s | 0 <= s < |t.ids|
      ensures Grounded(t, n, s, n.switches[s].root, n.switches[s].cost)
    {
      var w := n.switches[s];
      BestIsLast(w, true, |w.ports|);
      if w.rootPort.Some? {
        assert Blocked(n, Endpoint(s, w.rootPort.value));
      }
      BeliefGrounded(t, n, s);
    }
  }

  lemma StepMessagesTruthful(t: Topology, n: Net, n': Net, a: Step)
    requires ValidTopology(t) && Shape(t, n) && MessagesTruthful(t, n)
    requires Next(t, n, n', a) && Trusted(t, n, a) && Improves(n, n')
    requires Shape(t, n') && BeliefsGrounded(t, n')
    ensures MessagesTruthful(t, n')
  {
    forall e, k | e in n'.log && 0 <= k < |n'.log[e]|
      ensures MessageTruthful(t, n', e, k)
    {
      StepEntry(t, n, n', a, e, k);
      if e in n.log && k < |n.log[e]| && n'.log[e][k] == n.log[e][k] {
        assert MessageTruthful(t, n, e, k);
        EntryPersists(t, n, n', e, k);
      } else {
        OwnTruthful(t, n', e, k);
      }
    }
  }

  lemma EntryPersists(t: Topology, n: Net, n': Net, e: Endpoint, k: nat)
    requires e in n.log && k < |n.log[e]| && e in n'.log && k < |n'.log[e]| && n'.log[e][k] == n.log[e][k]
    requires Improves(n, n') && MessageTruthful(t, n, e, k)
    ensures MessageTruthful(t, n', e, k)
  {
    TruthfulPersists(t, n, n', e, n.log[e][k]);
  }

  lemma StepEntry(t: Topology, n: Net, n': Net, a: Step, e: Endpoint, k: nat)
    requires ValidTopology(t) && Shape(t, n) && Next(t, n, n', a) && Trusted(t, n, a)
    requires e in n'.log && k < |n'.log[e]|
    ensures InRange(t, e) && e in n.log && e.sw < |n'.switches|
    ensures (k < |n.log[e]| && n'.log[e][k] == n.log[e][k]) || n'.log[e][k] == Own(n'.switches[e.sw], e.port)
  {
    assert Linked(t, e);
    StepLog(t, n, n', a, e);
  }

  lemma OwnTruthful(t: Topology, n: Net, e: Endpoint, k: nat)
    requires Shape(t, n) && BeliefsGrounded(t, n) && InRange(t, e)
    requires e in n.log && k < |n.log[e]| && n.log[e][k] == Own(n.switches[e.sw], e.port)
    ensures MessageTruthful(t, n, e, k)
  {
  }

  /** The invariant is inductive, and no step makes any switch believe something worse. */
  lemma StepInv(t: Topology, n: Net, n': Net, a: Step)
    requires ValidTopology(t) && Inv(t, n) && Next(t, n, n', a)
    ensures Inv(t, n') && Improves(n, n')
  {
    InvTrusts(t, n, a);
    StepShape(t, n, n', a);
    StepBlockedTruthful(t, n, n', a);
    StepBeliefsGrounded(t, n');
    StepMessagesTruthful(t, n, n', a);
  }
}
