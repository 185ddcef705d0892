/**
 What the poptrie answers after any insertions that drop no leaf, in terms of
 the routes alone: the last route that reached the address.
 */
module PoptrieAnswer {
  import opened Options
  import opened Addresses
  import opened Routes
  import opened PoptrieNode
  import opened PoptrieTree
  import opened PoptrieTable
  import opened PoptrieLpm

  // ----- The last route that reaches an address ------------------------------

  /** The insertion of `r` into the table writes the leaf of `d`: no earlier route has opened a node below its level. */
  ghost predicate Reaches(table: seq<Route>, r: Route, d: Address)
    requires Usables(table) && Usable(r)
  {
    Matches(r, d) && !Deeper(table, Level(r.len) + 1, d)
  }

  ghost function Reached(table: seq<Route>, d: Address): (best: Option<Route>)
    requires Usables(table)
    ensures best.Some? ==> best.value in table && Usable(best.value)
  {
    if table == [] then None else
    var n := |table| - 1;
    if Reaches(table[..n], table[n], d) then Some(table[n]) else Reached(table[..n], d)
  }

  ghost predicate ReachesAt(table: seq<Route>, i: nat, d: Address)
    requires Usables(table) && i < |table|
  {
    Reaches(table[..i], table[i], d)
  }

  ghost predicate LastReach(table: seq<Route>, w: nat, d: Address)
    requires Usables(table)
  {
    w < |table| && ReachesAt(table, w, d) && forall i :: w < i < |table| ==> !ReachesAt(table, i, d)
  }

  lemma {:induction false} ReachesAtPrefix(table: seq<Route>, n: nat, d: Address)
    requires Usables(table) && n <= |table|
    ensures forall i :: 0 <= i < n ==> (ReachesAt(table[..n], i, d) <==> ReachesAt(table, i, d))
  {
    forall i | 0 <= i < n
      ensures ReachesAt(table[..n], i, d) <==> ReachesAt(table, i, d)
    {
      assert table[..n][..i] == table[..i];
    }
  }

  /** `Reached` finds nothing exactly if no route reaches the address, and otherwise the last that does. */
  lemma {:induction false} ReachedIsLast(table: seq<Route>, d: Address) returns (w: nat)
    requires Usables(table)
    ensures Reached(table, d).None? <==> forall i :: 0 <= i < |table| ==> !ReachesAt(table, i, d)
    ensures Reached(table, d).Some? ==> LastReach(table, w, d) && Reached(table, d).value == table[w]
  {
    w := 0;
    if table != [] {
      var n := |table| - 1;
      ReachesAtPrefix(table, n, d);
      if ReachesAt(table, n, d) {
        w := n;
      } else {
        w := ReachedIsLast(table[..n], d);
      }
    }
  }

  lemma ReachedSnoc(table: seq<Route>, r: Route, d: Address)
    requires Usables(table) && Usable(r)
    ensures Usables(table + [r])
    ensures Reached(table + [r], d) == if Reaches(table, r, d) then Some(r) else Reached(table, d)
  {
    var t := table + [r];
    assert t[..|t| - 1] == table;
  }

  // ----- The same along keys -------------------------------------------------

  ghost predicate ReachesKeys(table: seq<Route>, r: Route, y: seq<nat>)
    requires Usables(table) && Usable(r) && |y| == 6
  {
    MatchesKeys(r, y) && y[..Level(r.len) + 1] !in Nodes(table)
  }

  ghost function ReachedKeys(table: seq<Route>, y: seq<nat>): (best: Option<Route>)
    requires Usables(table) && |y| == 6
    ensures best.Some? ==> Usable(best.value)
  {
    if table == [] then None else
    var n := |table| - 1;
    if ReachesKeys(table[..n], table[n], y) then Some(table[n]) else ReachedKeys(table[..n], y)
  }

  lemma ReachedKeysSnoc(table: seq<Route>, r: Route, y: seq<nat>)
    requires Usables(table) && Usable(r) && |y| == 6
    ensures Usables(table + [r])
    ensures ReachedKeys(table + [r], y) == if ReachesKeys(table, r, y) then Some(r) else ReachedKeys(table, y)
  {
    var t := table + [r];
    assert t[..|t| - 1] == table;
  }

  /** No prefix tells the keys `y` and the address apart. */
  ghost predicate StandsFor(y: seq<nat>, d: Address) {
    && KeyPath(y) && (forall j :: 0 <= j < 5 ==> KeyAt(d, j) == y[j])
    && forall r: Route :: Usable(r) ==> (MatchesKeys(r, y) <==> Matches(r, d))
  }

  lemma KeysStandFor(d: Address)
    ensures StandsFor(KeysOf(d), d)
  {
    forall r: Route | Usable(r)
      ensures MatchesKeys(r, KeysOf(d)) <==> Matches(r, d)
    {
      AgreeIsUnder(r.dest, r.len, d);
    }
  }

  lemma StandIn(y: seq<nat>) returns (d: Address)
    requires KeyPath(y)
    ensures StandsFor(y, d)
  {
    d := AddressOf(y);
    forall r: Route | Usable(r)
      ensures MatchesKeys(r, y) <==> Matches(r, d)
    {
      AddressUnder(y, d, r.dest, r.len);
    }
  }

  lemma NodesEndEarly(table: seq<Route>)
    requires Usables(table)
    ensures forall q :: q in Nodes(table) ==> |q| <= 5
  {
    forall q | q in Nodes(table)
      ensures |q| <= 5
    {
      NodesAreShort(table, q);
    }
  }

  lemma ReachesAlong(table: seq<Route>, r: Route, y: seq<nat>, d: Address)
    requires Usables(table) && Usable(r) && StandsFor(y, d)
    ensures ReachesKeys(table, r, y) <==> Reaches(table, r, d)
  {
    var n := Level(r.len) + 1;
    NodesAreDeeper(table, n, d);
    if n <= 5 {
      assert y[..n] == KeysOf(d)[..n];
    } else {
      NodesEndEarly(table);
    }
  }

  lemma {:induction false} ReachedAlong(table: seq<Route>, y: seq<nat>, d: Address)
    requires Usables(table) && StandsFor(y, d)
    ensures ReachedKeys(table, y) == Reached(table, d)
  {
    if table != [] {
      var n := |table| - 1;
      ReachesAlong(table[..n], table[n], y, d);
      ReachedAlong(table[..n], y, d);
    }
  }

  lemma LpmAlong(table: seq<Route>, y: seq<nat>, d: Address)
    requires Usables(table) && StandsFor(y, d)
    ensures LpmKeys(table, y) == Lpm(table, d)
  {
    LpmKeysSame(table, y, d);
  }

  // ----- What the tree answers -------------------------------------------------

  /** A sound tree with exactly the nodes the routes need, whose lookups give the last route that reached them. */
  ghost predicate Answers(view: map<Path, Internal>, table: seq<Route>)
    requires Usables(table)
  {
    && TrieWf(view)
    && view.Keys == Nodes(table)
    && forall y :: KeyPath(y) ==> Lookup(view, y) == LeafOf(ReachedKeys(table, y))
  }

  /** No address that `r` reaches holds the leaf of a longer route. */
  ghost predicate DropsNothing(table: seq<Route>, r: Route)
    requires Usables(table) && Usable(r)
  {
    forall d: Address :: Reaches(table, r, d) ==> Reached(table, d).None? || Reached(table, d).value.len <= r.len
  }

  lemma FitsExactly(view: map<Path, Internal>, table: seq<Route>, r: Route)
    requires Usables(table) && Usable(r) && Answers(view, table)
    ensures Fits(view, r.dest, r.len) <==> DropsNothing(table, r)
  {
    if Fits(view, r.dest, r.len) {
      forall d: Address | Reaches(table, r, d)
        ensures Reached(table, d).None? || Reached(table, d).value.len <= r.len
      {
        KeysStandFor(d);
        ReachesAlong(table, r, KeysOf(d), d);
        ReachedAlong(table, KeysOf(d), d);
        assert Lookup(view, KeysOf(d)).mask <= r.len;
      }
    } else {
      var y :| KeyPath(y) && Under(r.dest, r.len, y) && y[..Level(r.len) + 1] !in view && Lookup(view, y).mask > r.len;
      var d := StandIn(y);
      ReachesAlong(table, r, y, d);
      ReachedAlong(table, y, d);
    }
  }

  /** An insertion that drops nothing changes the answer exactly where the route reaches. */
  lemma InsertedAnswers(view: map<Path, Internal>, table: seq<Route>, view': map<Path, Internal>, r: Route)
    requires Usables(table) && Usable(r) && Answers(view, table) && Inserted(view, view', r) && DropsNothing(table, r)
    ensures Usables(table + [r]) && Answers(view', table + [r])
  {
    NodesSnoc(table, r);
    FitsExactly(view, table, r);
    PutKeepsShape(view, view', r.dest, r.len, Leaf(r.iface, r.len));
    PutThatFits(view, view', r.dest, r.len, Leaf(r.iface, r.len));
    forall y | KeyPath(y)
      ensures Lookup(view', y) == LeafOf(ReachedKeys(table + [r], y))
    {
      ReachedKeysSnoc(table, r, y);
    }
  }

  /** One that drops something leaves an unsound tree. */
  lemma DroppedIsUnsound(view: map<Path, Internal>, table: seq<Route>, view': map<Path, Internal>, r: Route)
    requires Usables(table) && Usable(r) && Answers(view, table) && Inserted(view, view', r) && !DropsNothing(table, r)
    ensures !TrieWf(view')
  {
    FitsExactly(view, table, r);
    var d := DroppedIsMisread(view, view', r);
    if TrieWf(view') {
      ReadIsLookup(view', KeysOf(d));
    }
  }

  /** The last route that reaches an address gives the leaf of its longest match. */
  ghost predicate LastIsLongest(table: seq<Route>)
    requires Usables(table)
  {
    forall d: Address :: LeafOf(Reached(table, d)) == LeafOf(Lpm(table, d))
  }

  lemma AnswersRead(view: map<Path, Internal>, table: seq<Route>, d: Address)
    requires Usables(table) && Answers(view, table)
    ensures Shaped(view) && Read(view, KeysOf(d)) == Some(LeafOf(Reached(table, d)))
  {
    KeysStandFor(d);
    ReachedAlong(table, KeysOf(d), d);
    ReadIsLookup(view, KeysOf(d));
  }

  lemma AnswersCorrectly(view: map<Path, Internal>, table: seq<Route>)
    requires Usables(table) && Answers(view, table)
    ensures Shaped(view) && (Correct(view, table) <==> LastIsLongest(table))
  {
    WfIsShaped(view);
    forall d: Address
      ensures Read(view, KeysOf(d)) == Some(LeafOf(Reached(table, d)))
    {
      AnswersRead(view, table, d);
    }
  }

  lemma AnswersRepresent(view: map<Path, Internal>, table: seq<Route>)
    requires Usables(table) && Answers(view, table) && LastIsLongest(table)
    ensures Represents(view, table)
  {
    forall y | KeyPath(y)
      ensures Lookup(view, y) == LeafOf(LpmKeys(table, y))
    {
      var d := StandIn(y);
      ReachedAlong(table, y, d);
      LpmAlong(table, y, d);
    }
  }
}
