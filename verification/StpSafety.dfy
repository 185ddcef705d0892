/** Safety of the spanning-tree protocol over every run, whatever the network does to messages. */
module StpSafety {
  import opened StpSwitch
  import opened StpInvariant
  import opened StpNetwork

  /** Every state of every run satisfies the network invariant. */
  lemma {:induction false} RunInv(t: Topology, run: seq<Net>, acts: seq<Step>, i: nat)
    requires ValidTopology(t) && IsRun(t, run, acts) && i < |run|
    ensures Inv(t, run[i])
  {
    if i == 0 {
      RunStart(t, run, acts);
    } else {
      var j := i - 1;
      RunInv(t, run, acts, j);
      RunStep(t, run, acts, j);
      assert run[i] == run[j + 1];
    }
  }

  lemma RunStart(t: Topology, run: seq<Net>, acts: seq<Step>)
    requires ValidTopology(t) && IsRun(t, run, acts)
    ensures Inv(t, run[0])
  {
    InitInv(t, run[0]);
  }

  lemma RunStep(t: Topology, run: seq<Net>, acts: seq<Step>, i: nat)
    requires ValidTopology(t) && IsRun(t, run, acts) && i < |acts| && Inv(t, run[i])
    ensures Inv(t, run[i + 1]) && Improves(run[i], run[i + 1])
  {
    assert StepAt(t, run, acts, i);
    StepInv(t, run[i], run[i + 1], acts[i]);
  }

  lemma RunSize(t: Topology, run: seq<Net>, acts: seq<Step>, i: nat)
    requires ValidTopology(t) && IsRun(t, run, acts) && i < |run|
    ensures |run[i].switches| == |t.ids|
  {
    RunInv(t, run, acts, i);
  }

  lemma RunImproves(t: Topology, run: seq<Net>, acts: seq<Step>, i: nat)
    requires ValidTopology(t) && IsRun(t, run, acts) && i < |acts|
    ensures Improves(run[i], run[i + 1])
  {
    RunInv(t, run, acts, i);
    RunStep(t, run, acts, i);
  }

  /** Over a whole run a switch's (root, cost) never gets worse. */
  lemma {:induction false} BeliefsNeverWorsen(t: Topology, run: seq<Net>, acts: seq<Step>, i: nat, j: nat, s: nat)
    requires ValidTopology(t) && IsRun(t, run, acts) && i <= j < |run| && s < |t.ids|
    ensures |run[i].switches| == |run[j].switches| == |t.ids|
    ensures Le(BeliefOf(run[j].switches[s]), BeliefOf(run[i].switches[s]))
    decreases j
  {
    RunSize(t, run, acts, j);
    if i < j {
      BeliefsNeverWorsen(t, run, acts, i, j - 1, s);
      RunImproves(t, run, acts, j - 1);
    }
  }

  /** No port ever stops being blocked. */
  lemma {:induction false} BlockedStaysBlocked(t: Topology, run: seq<Net>, acts: seq<Step>, i: nat, j: nat, e: Endpoint)
    requires ValidTopology(t) && IsRun(t, run, acts) && i <= j < |run|
    requires Blocked(run[i], e)
    ensures Blocked(run[j], e)
    decreases j
  {
    if i < j {
      BlockedStaysBlocked(t, run, acts, i, j - 1, e);
      RunKeepsBlocked(t, run, acts, j - 1, e);
    }
  }

  lemma RunKeepsBlocked(t: Topology, run: seq<Net>, acts: seq<Step>, i: nat, e: Endpoint)
    requires ValidTopology(t) && IsRun(t, run, acts) && i < |acts| && Blocked(run[i], e)
    ensures Blocked(run[i + 1], e)
  {
    RunInv(t, run, acts, i);
    assert StepAt(t, run, acts, i);
    StepKeepsBlocked(t, run[i], run[i + 1], acts[i], e);
  }

  lemma StepKeepsBlocked(t: Topology, n: Net, n': Net, a: Step, e: Endpoint)
    requires ValidTopology(t) && Inv(t, n) && Next(t, n, n', a) && Blocked(n, e)
    ensures Blocked(n', e)
  {
    InvTrusts(t, n, a);
    if Accepts(t, n, a) {
      var d := t.link[a.from];
      AcceptPorts(n.switches[d.sw], d.port, n.log[a.from][a.k]);
    }
  }

  /** In every reachable state a switch believes in itself exactly while its timer runs and it has no root port. */
  lemma TimerRunsExactlyAtRoots(t: Topology, run: seq<Net>, acts: seq<Step>, i: nat, s: nat)
    requires ValidTopology(t) && IsRun(t, run, acts) && i < |run| && s < |t.ids|
    ensures s < |run[i].switches|
    ensures var w := run[i].switches[s];
            && (w.hello <==> w.root == t.ids[s])
            && (w.rootPort.None? <==> w.root == t.ids[s])
            && (w.cost == 0 <==> w.root == t.ids[s])
            && w.root <= t.ids[s]
  {
    RunInv(t, run, acts, i);
  }

  // ----- No counting to infinity -----------------------------------------

  lemma {:induction false} DistinctBelow(xs: seq<nat>, n: nat)
    requires forall j :: 0 <= j < |xs| ==> xs[j] < n
    requires forall i, j :: 0 <= i < j < |xs| ==> xs[i] != xs[j]
    ensures |xs| <= n
    decreases n
  {
    if xs != [] {
      var last := |xs| - 1;
      var ys := seq(last, i requires 0 <= i < last => if xs[i] == n - 1 then xs[last] else xs[i]);
      DistinctBelow(ys, n - 1);
    }
  }

  /** A simple path of the topology, from switch `x` to the switch with ID `r`, of `c` links. */
  ghost predicate SimplePath(t: Topology, path: seq<nat>, x: nat, r: nat, c: nat) {
    && |path| == c + 1 && path[0] == x
    && (forall j :: 0 <= j < |path| ==> path[j] < |t.ids|)
    && t.ids[path[c]] == r
    && (forall i, j :: 0 <= i < j < |path| ==> path[i] != path[j])
    && (forall j :: 0 <= j < c ==> Adjacent(t, path[j], path[j + 1]))
  }

  ghost predicate Reaches(t: Topology, x: nat, r: nat, c: nat) {
    c < |t.ids| && exists path :: SimplePath(t, path, x, r, c)
  }

  lemma GroundedReaches(t: Topology, n: Net, x: nat, r: nat, c: nat)
    requires Grounded(t, n, x, r, c)
    ensures Reaches(t, x, r, c)
  {
    var path :| GroundPath(t, n, path, x, r, c);
    DistinctBelow(path, |t.ids|);
    assert SimplePath(t, path, x, r, c);
  }

  /**
   Beliefs, stored vectors and messages in flight all name a real switch, at the
   length of a simple path to it: no cost ever reaches the number of switches.
   */
  lemma NoCountingToInfinity(t: Topology, run: seq<Net>, acts: seq<Step>, i: nat)
    requires ValidTopology(t) && IsRun(t, run, acts) && i < |run|
    ensures forall s :: 0 <= s < |t.ids| && s < |run[i].switches| ==>
              Reaches(t, s, run[i].switches[s].root, run[i].switches[s].cost)
    ensures forall e, k :: e in run[i].log && 0 <= k < |run[i].log[e]| ==>
              Reaches(t, e.sw, run[i].log[e][k].root, run[i].log[e][k].cost)
    ensures forall e :: Blocked(run[i], e) ==>
              e in t.link && var v := run[i].switches[e.sw].ports[e.port]; Reaches(t, t.link[e].sw, v.root, v.cost)
  {
    RunInv(t, run, acts, i);
    var n := run[i];
    forall s | 0 <= s < |t.ids| && s < |n.switches|
      ensures Reaches(t, s, n.switches[s].root, n.switches[s].cost)
    {
      GroundedReaches(t, n, s, n.switches[s].root, n.switches[s].cost);
    }
    forall e, k | e in n.log && 0 <= k < |n.log[e]|
      ensures Reaches(t, e.sw, n.log[e][k].root, n.log[e][k].cost)
    {
      assert MessageTruthful(t, n, e, k);
      GroundedReaches(t, n, e.sw, n.log[e][k].root, n.log[e][k].cost);
    }
    forall e | Blocked(n, e)
      ensures e in t.link && var v := n.switches[e.sw].ports[e.port]; Reaches(t, t.link[e].sw, v.root, v.cost)
    {
      var v := n.switches[e.sw].ports[e.port];
      GroundedReaches(t, n, t.link[e].sw, v.root, v.cost);
    }
  }

  // ----- No loop of root ports -------------------------------------------

  /** `v` is the switch behind the root port of `u`. */
  ghost predicate ParentOf(t: Topology, n: Net, u: nat, v: nat) {
    && u < |n.switches| && n.switches[u].rootPort.Some?
    && var e := Endpoint(u, n.switches[u].rootPort.value);
       e in t.link && t.link[e].sw == v
  }

  ghost predicate RootWalk(t: Topology, n: Net, w: seq<nat>) {
    && (forall j :: 0 <= j < |w| ==> w[j] < |n.switches|)
    && forall j :: 0 <= j < |w| - 1 ==> ParentOf(t, n, w[j], w[j + 1])
  }

  /** Every root port leads to a switch that is, right now, strictly closer to a better root. */
  ghost predicate Descends(t: Topology, n: Net) {
    forall u: nat, v: nat :: ParentOf(t, n, u, v) ==>
          v < |n.switches| && Lt(BeliefOf(n.switches[v]), BeliefOf(n.switches[u]))
  }

  lemma RootPortBlocked(t: Topology, n: Net, u: nat)
    requires Inv(t, n) && u < |t.ids| && n.switches[u].rootPort.Some?
    ensures Blocked(n, Endpoint(u, n.switches[u].rootPort.value))
    ensures var v := n.switches[u].ports[n.switches[u].rootPort.value];
            BeliefOf(n.switches[u]) == Belief(v.root, v.cost + 1)
  {
    var w := n.switches[u];
    BestIsLast(w, true, |w.ports|);
  }

  lemma InvDescends(t: Topology, n: Net)
    requires Inv(t, n)
    ensures Descends(t, n)
    ensures forall u :: 0 <= u < |n.switches| && n.switches[u].rootPort.Some? ==>
              Endpoint(u, n.switches[u].rootPort.value) in t.link
  {
    forall u | 0 <= u < |n.switches| && n.switches[u].rootPort.Some?
      ensures var e := Endpoint(u, n.switches[u].rootPort.value);
              e in t.link && t.link[e].sw < |n.switches|
                    && Lt(BeliefOf(n.switches[t.link[e].sw]), BeliefOf(n.switches[u]))
    {
      RootPortBlocked(t, n, u);
    }
  }

  lemma {:induction false} RootWalkDescends(t: Topology, n: Net, w: seq<nat>, i: nat, j: nat)
    requires Descends(t, n) && RootWalk(t, n, w) && i < j < |w|
    ensures Lt(BeliefOf(n.switches[w[j]]), BeliefOf(n.switches[w[i]]))
    decreases j
  {
    assert ParentOf(t, n, w[j - 1], w[j]);
    if i < j - 1 {
      RootWalkDescends(t, n, w, i, j - 1);
    }
  }

  lemma RootWalkIsSimple(t: Topology, n: Net, w: seq<nat>)
    requires Descends(t, n) && RootWalk(t, n, w)
    ensures forall a, b :: 0 <= a < b < |w| ==> w[a] != w[b]
    ensures |w| <= |n.switches|
  {
    forall a, b | 0 <= a < b < |w|
      ensures w[a] != w[b]
    {
      RootWalkDescends(t, n, w, a, b);
    }
    DistinctBelow(w, |n.switches|);
  }

  lemma {:induction false} RootWalkExtends(t: Topology, n: Net, w: seq<nat>)
    requires Descends(t, n) && RootWalk(t, n, w) && w != []
    requires forall u :: 0 <= u < |n.switches| && n.switches[u].rootPort.Some? ==>
               Endpoint(u, n.switches[u].rootPort.value) in t.link
    ensures exists w' :: w <= w' && RootWalk(t, n, w') && n.switches[w'[|w'| - 1]].rootPort.None?
    decreases |n.switches| - |w|
  {
    RootWalkIsSimple(t, n, w);
    var last := w[|w| - 1];
    if n.switches[last].rootPort.Some? {
      var v := t.link[Endpoint(last, n.switches[last].rootPort.value)].sw;
      assert ParentOf(t, n, last, v);
      RootWalkIsSimple(t, n, w + [v]);
      RootWalkExtends(t, n, w + [v]);
    } else {
      assert w <= w;
    }
  }

  /**
   Loop freedom in every state of every run: following root ports never returns
   to a switch, and ends at a switch that takes itself for root.
   */
  lemma RootPortsFormForest(t: Topology, run: seq<Net>, acts: seq<Step>, i: nat)
    requires ValidTopology(t) && IsRun(t, run, acts) && i < |run|
    ensures forall w :: RootWalk(t, run[i], w) ==>
              |w| <= |t.ids| && forall a, b :: 0 <= a < b < |w| ==> w[a] != w[b]
    ensures forall s :: 0 <= s < |run[i].switches| ==> LeadsToRoot(t, run[i], s)
  {
    RunInv(t, run, acts, i);
    var n := run[i];
    InvDescends(t, n);
    forall w | RootWalk(t, n, w)
      ensures |w| <= |t.ids| && forall a, b :: 0 <= a < b < |w| ==> w[a] != w[b]
    {
      RootWalkIsSimple(t, n, w);
    }
    forall s | 0 <= s < |n.switches|
      ensures LeadsToRoot(t, n, s)
    {
      RootWalkExtends(t, n, [s]);
      var w' :| [s] <= w' && RootWalk(t, n, w') && n.switches[w'[|w'| - 1]].rootPort.None?;
      assert IsRoot(n.switches[w'[|w'| - 1]]);
    }
  }

  ghost predicate LeadsToRoot(t: Topology, n: Net, s: nat) {
    exists w :: [s] <= w && RootWalk(t, n, w) && IsRoot(n.switches[w[|w| - 1]])
  }

  // ----- The lowest switch -----------------------------------------------

  /** The switch with the lowest ID believes in itself forever and never blocks a port. */
  lemma LowestStaysRoot(t: Topology, run: seq<Net>, acts: seq<Step>, i: nat, s: nat)
    requires ValidTopology(t) && IsRun(t, run, acts) && i < |run| && s < |t.ids|
    requires forall u :: 0 <= u < |t.ids| ==> t.ids[s] <= t.ids[u]
    ensures s < |run[i].switches| && IsRoot(run[i].switches[s]) && run[i].switches[s].hello
    ensures forall p :: 0 <= p < |run[i].switches[s].ports| ==> Designated(run[i].switches[s], p)
  {
    RunInv(t, run, acts, i);
    var n := run[i];
    var w := n.switches[s];
    var path :| GroundPath(t, n, path, s, w.root, w.cost);
    assert t.ids[s] <= t.ids[path[w.cost]];
    BestIsLast(w, true, |w.ports|);
  }
}
