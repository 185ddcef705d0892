/** What one switch keeps, whatever messages from other switches it is given. */
module StpInvariant {
  import opened StpSwitch

  /** A switch agrees with its own ports: designated ports speak for it, the root port decides for it. */
  ghost predicate Coherent(s: Switch) {
    && 0 < |s.ports| <= STP_MAX_PORTS
    && (forall i :: 0 <= i < |s.ports| && Designated(s, i) ==> s.ports[i] == Own(s, i))
    && s.rootPort == RootPort(s)
    && (s.rootPort.None? ==> s.root == s.id && s.cost == 0)
    && (s.rootPort.Some? ==>
          s.root == s.ports[s.rootPort.value].root && s.cost == s.ports[s.rootPort.value].cost + PATH_COST)
  }

  /** A message another switch could have sent: only a root claims cost 0. */
  predicate Foreign(s: Switch, c: Vector) {
    c.switch != s.id && (c.cost == 0 ==> c.root == c.switch)
  }

  /** A switch counts itself as root exactly while it has no root port; then its timer runs. */
  ghost predicate Settled(s: Switch) {
    && (s.rootPort.None? <==> s.root == s.id)
    && (s.root == s.id <==> s.cost == 0)
    && s.root <= s.id
    && (s.hello <==> s.root == s.id)
  }

  lemma InitCoherent(id: nat, nports: nat)
    requires 0 < nports <= STP_MAX_PORTS
    ensures Coherent(InitSwitch(id, nports)) && Settled(InitSwitch(id, nports))
  {
    BestIsLast(InitSwitch(id, nports), true, nports);
  }

  /** Two switches that differ only in designated vectors select the same root port. */
  lemma {:induction false} BestBlockedFrame(s: Switch, t: Switch, n: nat)
    requires |s.ports| == |t.ports| && n <= |s.ports|
    requires forall j :: 0 <= j < n ==> (Designated(s, j) <==> Designated(t, j))
    requires forall j :: 0 <= j < n && !Designated(s, j) ==> s.ports[j] == t.ports[j]
    ensures Best(s, true, n) == Best(t, true, n)
  {
    if n > 0 {
      BestBlockedFrame(s, t, n - 1);
      BestIsLast(s, true, n - 1);
    }
  }

  /** What accepting a message leaves behind, port by port. */
  lemma AcceptPorts(s: Switch, p: nat, c: Vector)
    requires p < |s.ports| && c.switch != s.id
    ensures var s' := Accept(s, p, c);
      && s'.id == s.id && |s'.ports| == |s.ports|
      && s'.ports[p] == c
      && (forall i :: 0 <= i < |s.ports| ==> (Designated(s', i) <==> i != p && Designated(s, i)))
      && (forall i :: 0 <= i < |s.ports| && i != p && !Designated(s, i) ==> s'.ports[i] == s.ports[i])
      && (forall i :: 0 <= i < |s.ports| && Designated(s', i) ==> s'.ports[i] == Own(s', i))
      && s'.rootPort == RootPort(s') && s'.rootPort.Some?
      && s'.root == s'.ports[s'.rootPort.value].root
      && s'.cost == s'.ports[s'.rootPort.value].cost + PATH_COST
      && s'.hello == (s.hello && !IsRoot(s))
  {
    var s1 := s.(ports := s.ports[p := c]);
    BestOverallIsRootOrDesignated(s1);
    BestIsLast(s1, true, |s1.ports|);
    var s2 := Adopt(s1, RootPort(s1));
    assert !Designated(s1, p);
    assert Relabel(s2, Best(s1, false, |s1.ports|), p) == s2;
    var s' := Refresh(s2);
    assert s' == Accept(s, p, c);
    forall i | 0 <= i < |s.ports|
      ensures Designated(s', i) <==> Designated(s1, i)
      ensures !Designated(s1, i) ==> s'.ports[i] == s1.ports[i]
      ensures Designated(s1, i) ==> s'.ports[i] == Own(s', i)
    {
      assert s'.ports[i] == RefreshPort(s2, i);
      assert Designated(s2, i) <==> Designated(s1, i);
    }
    BestBlockedFrame(s1, s', |s.ports|);
  }

  /** Accepting a better message keeps the switch coherent and never worsens anything it holds. */
  lemma AcceptKeeps(s: Switch, p: nat, c: Vector)
    requires Coherent(s) && Settled(s) && p < |s.ports| && Foreign(s, c) && PortCmp(s.ports[p], c)
    ensures var s' := Accept(s, p, c);
      && Coherent(s') && Settled(s')
      && Le(BeliefOf(s'), BeliefOf(s))
      && forall i :: 0 <= i < |s.ports| ==> PortCmp(s.ports[i], s'.ports[i])
  {
    AcceptPorts(s, p, c);
    var s' := Accept(s, p, c);
    BestIsLast(s, true, |s.ports|);
    BestIsLast(s', true, |s.ports|);
    assert PortCmp(s'.ports[p], s'.ports[s'.rootPort.value]);
    if s.rootPort.Some? {
      var r := s.rootPort.value;
      assert PortCmp(s'.ports[r], s'.ports[s'.rootPort.value]);
    } else {
      assert Designated(s, p);
    }
    forall i | 0 <= i < |s.ports|
      ensures PortCmp(s.ports[i], s'.ports[i])
    {
      if Designated(s', i) {
        assert s'.ports[i] == Own(s', i) && s.ports[i] == Own(s, i);
      }
    }
  }

  // ----- Messages --------------------------------------------------------

  lemma {:induction false} ThroughConcat(a: seq<Send>, b: seq<Send>, i: nat)
    ensures Through(a + b, i) == Through(a, i) + Through(b, i)
  {
    if b == [] {
      assert a + b == a;
    } else {
      assert (a + b)[..|a + b| - 1] == a + b[..|b| - 1];
      ThroughConcat(a, b[..|b| - 1], i);
    }
  }

  /** A coherent switch can always speak, and a broadcast says the same through every designated port, once. */
  lemma {:induction false} BroadcastSaysOwn(s: Switch, n: nat, i: nat)
    requires Coherent(s) && n <= |s.ports|
    ensures Through(SendConfigs(s, n), i) == if i < n && Designated(s, i) then [Own(s, i)] else []
  {
    if n > 0 {
      BroadcastSaysOwn(s, n - 1, i);
      var last := if Designated(s, n - 1) then SendConfig(s, n - 1) else [];
      ThroughConcat(SendConfigs(s, n - 1), last, i);
      if last != [] {
        assert last == [Send(n - 1, Own(s, n - 1))] && last[..0] == [];
      }
    }
  }

  lemma ReplySaysOwn(s: Switch, p: nat, i: nat)
    requires Coherent(s) && p < |s.ports|
    ensures Through(SendConfig(s, p), i) == if i == p then [Own(s, i)] else []
  {
    assert SendConfig(s, p) == [Send(p, Own(s, p))];
    assert SendConfig(s, p)[..0] == [];
  }
}
