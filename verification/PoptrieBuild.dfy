/** Loading a whole table, and looking addresses up in it. */
module PoptrieBuild {
  import opened Options
  import opened Addresses
  import opened Routes
  import opened PoptrieNode
  import opened PoptrieTree
  import opened PoptrieTable
  import opened PoptrieLpm
  import opened PoptrieAnswer

  lemma EmptyAnswers(view: map<Path, Internal>)
    requires TrieWf(view) && view.Keys == {[]} && forall x :: KeyPath(x) ==> Lookup(view, x) == Leaf(0, 0)
    ensures Answers(view, [])
  {
  }

  /** No insertion drops the leaf of a longer route. */
  ghost predicate DropsNothingUpTo(table: seq<Route>, n: nat)
    requires Usables(table) && n <= |table|
  {
    forall j {:trigger KeptAt(table, j)} :: 0 <= j < n ==> KeptAt(table, j)
  }

  ghost predicate KeptAt(table: seq<Route>, j: nat)
    requires Usables(table) && j < |table|
  {
    DropsNothing(table[..j], table[j])
  }

  ghost predicate NoneDropped(table: seq<Route>)
    requires Usables(table)
  {
    DropsNothingUpTo(table, |table|)
  }

  /** The insertions served so far: each one was safe when it was made. */
  ghost predicate SafeSequence(table: seq<Route>)
    requires Usables(table)
  {
    forall j {:trigger SafeAt(table, j)} :: 0 <= j < |table| ==> SafeAt(table, j)
  }

  ghost predicate SafeAt(table: seq<Route>, j: nat)
    requires Usables(table) && j < |table|
  {
    Safe(table[..j], table[j])
  }

  lemma OuterFirstIsSafe(table: seq<Route>)
    requires Usables(table) && OuterFirst(table)
    ensures SafeSequence(table)
  {
    forall j | 0 <= j < |table|
      ensures SafeAt(table, j)
    {
      NoneNestedIsSafe(table[..j], table[j]);
    }
  }

  /** A safe insertion drops nothing, and the last route that reaches an address stays the longest match. */
  lemma SafeDropsNothing(table: seq<Route>, r: Route)
    requires Usables(table) && Usable(r) && LastIsLongest(table) && Safe(table, r)
    ensures DropsNothing(table, r) && Usables(table + [r]) && LastIsLongest(table + [r])
  {
    forall d: Address
      ensures Reaches(table, r, d) ==> Reached(table, d).None? || Reached(table, d).value.len <= r.len
      ensures Usables(table + [r]) && LeafOf(Reached(table + [r], d)) == LeafOf(Lpm(table + [r], d))
    {
      ReachedSnoc(table, r, d);
      LpmSnoc(table, r, d);
      assert Matches(r, d) ==> Serves(table, r, d);
    }
  }

  lemma SafePrefix(table: seq<Route>, n: nat)
    requires Usables(table) && SafeSequence(table) && n <= |table|
    ensures SafeSequence(table[..n])
  {
    forall j | 0 <= j < n
      ensures SafeAt(table[..n], j)
    {
      assert SafeAt(table, j) && table[..n][..j] == table[..j];
    }
  }

  lemma {:induction false} SafeIsKept(table: seq<Route>)
    requires Usables(table) && SafeSequence(table)
    ensures NoneDropped(table) && LastIsLongest(table)
  {
    if table != [] {
      var n := |table| - 1;
      SafePrefix(table, n);
      SafeIsKept(table[..n]);
      assert SafeAt(table, n) && table[..n] + [table[n]] == table;
      SafeDropsNothing(table[..n], table[n]);
      forall j | 0 <= j < n
        ensures KeptAt(table, j)
      {
        assert KeptAt(table[..n], j) && table[..n][..j] == table[..j];
      }
    }
  }

  lemma OneMore(view: map<Path, Internal>, table: seq<Route>, view': map<Path, Internal>, i: nat)
    requires Usables(table) && NoneDropped(table) && i < |table|
    requires Answers(view, table[..i]) && Inserted(view, view', table[i])
    ensures Answers(view', table[..i + 1])
  {
    assert KeptAt(table, i);
    InsertedAnswers(view, table[..i], view', table[i]);
    assert table[..i] + [table[i]] == table[..i + 1];
  }

  /** Inserts the routes in order, where no insertion drops a leaf. */
  method AddRoutes(table: seq<Route>) returns (t: Poptrie)
    requires Usables(table) && NoneDropped(table)
    ensures fresh(t) && fresh(t.cache) && t.Valid() && t.Counted() && Answers(t.view, table)
    ensures SafeSequence(table) ==> Represents(t.view, table)
  {
    t := new Poptrie();
    EmptyAnswers(t.view);
    assert table[..0] == [];
    for i := 0 to |table|
      invariant fresh(t) && fresh(t.cache) && t.Valid() && t.Counted() && Answers(t.view, table[..i])
    {
      ghost var view := t.view;
      t.Put(table[i].dest, table[i].len, table[i].iface);
      OneMore(view, table, t.view, i);
    }
    assert table[..|table|] == table;
    if SafeSequence(table) {
      SafeIsKept(table);
      AnswersRepresent(t.view, table);
    }
  }

  /** The trees that arise when the routes are inserted in order, each insertion into a sound tree. */
  ghost predicate Loads(views: seq<map<Path, Internal>>, table: seq<Route>)
    requires Usables(table)
  {
    && |views| == |table| + 1 && Represents(views[0], [])
    && (forall i :: 0 <= i <= |table| ==> Shaped(views[i]))
    && forall i :: 0 <= i < |table| && TrieWf(views[i]) ==> Inserted(views[i], views[i + 1], table[i])
  }

  ghost predicate CorrectAt(views: seq<map<Path, Internal>>, table: seq<Route>, i: nat)
    requires Usables(table) && Loads(views, table) && i <= |table|
  {
    Correct(views[i], table[..i])
  }

  ghost predicate CorrectUpTo(views: seq<map<Path, Internal>>, table: seq<Route>, n: nat)
    requires Usables(table) && Loads(views, table) && n <= |table|
  {
    forall i {:trigger CorrectAt(views, table, i)} :: 0 <= i <= n ==> CorrectAt(views, table, i)
  }

  ghost predicate SafeUpTo(table: seq<Route>, n: nat)
    requires Usables(table) && n <= |table|
  {
    forall j {:trigger SafeAt(table, j)} :: 0 <= j < n ==> SafeAt(table, j)
  }

  lemma LoadStep(views: seq<map<Path, Internal>>, table: seq<Route>, n: nat)
    requires Usables(table) && Loads(views, table) && n < |table| && Represents(views[n], table[..n])
    ensures CorrectAt(views, table, n + 1) <==> SafeAt(table, n)
    ensures SafeAt(table, n) ==> Represents(views[n + 1], table[..n + 1])
  {
    var t, r := table[..n], table[n];
    assert t + [r] == table[..n + 1];
    PutCorrectIffSafe(views[n], t, views[n + 1], r);
    if Safe(t, r) {
      SafeRepresents(views[n], t, views[n + 1], r);
    }
  }

  lemma UpToStep(views: seq<map<Path, Internal>>, table: seq<Route>, m: nat)
    requires Usables(table) && Loads(views, table) && m < |table|
    ensures CorrectUpTo(views, table, m + 1) <==> CorrectUpTo(views, table, m) && CorrectAt(views, table, m + 1)
    ensures SafeUpTo(table, m + 1) <==> SafeUpTo(table, m) && SafeAt(table, m)
  {
  }

  lemma StartUpTo(views: seq<map<Path, Internal>>, table: seq<Route>)
    requires Usables(table) && Loads(views, table)
    ensures CorrectUpTo(views, table, 0) && SafeUpTo(table, 0) && Represents(views[0], table[..0])
  {
    assert table[..0] == [];
    RepresentsCorrect(views[0], []);
  }

  lemma {:induction false} LoadedUpTo(views: seq<map<Path, Internal>>, table: seq<Route>, n: nat)
    requires Usables(table) && Loads(views, table) && n <= |table|
    ensures CorrectUpTo(views, table, n) <==> SafeUpTo(table, n)
    ensures SafeUpTo(table, n) ==> Represents(views[n], table[..n])
  {
    if n == 0 {
      StartUpTo(views, table);
    } else {
      var m := n - 1;
      LoadedUpTo(views, table, m);
      UpToStep(views, table, m);
      if SafeUpTo(table, m) {
        LoadStep(views, table, m);
      }
    }
  }

  /** Every lookup is right after every insertion if and only if each insertion is safe. */
  lemma CorrectThroughoutIffSafe(views: seq<map<Path, Internal>>, table: seq<Route>)
    requires Usables(table) && Loads(views, table)
    ensures CorrectUpTo(views, table, |table|) <==> SafeSequence(table)
  {
    LoadedUpTo(views, table, |table|);
  }

  // ----- The final answers --------------------------------------------------

  ghost predicate SoundUpTo(views: seq<map<Path, Internal>>, n: nat)
    requires n < |views|
  {
    forall i {:trigger SoundAt(views, i)} :: 0 <= i <= n ==> SoundAt(views, i)
  }

  ghost predicate SoundAt(views: seq<map<Path, Internal>>, i: nat)
    requires i < |views|
  {
    TrieWf(views[i])
  }

  lemma SoundUpToStep(views: seq<map<Path, Internal>>, table: seq<Route>, n: nat)
    requires Usables(table) && n < |table| && |views| == |table| + 1
    ensures SoundUpTo(views, n + 1) <==> SoundUpTo(views, n) && SoundAt(views, n + 1)
    ensures DropsNothingUpTo(table, n + 1) <==> DropsNothingUpTo(table, n) && KeptAt(table, n)
  {
  }

  lemma EmptyRepresented(view: map<Path, Internal>)
    requires Represents(view, [])
    ensures Answers(view, [])
  {
  }

  lemma SoundStep(views: seq<map<Path, Internal>>, table: seq<Route>, n: nat)
    requires Usables(table) && Loads(views, table) && n < |table| && Answers(views[n], table[..n])
    ensures SoundAt(views, n + 1) <==> KeptAt(table, n)
    ensures KeptAt(table, n) ==> Answers(views[n + 1], table[..n + 1])
  {
    var t, r := table[..n], table[n];
    assert t + [r] == table[..n + 1];
    if KeptAt(table, n) {
      InsertedAnswers(views[n], t, views[n + 1], r);
    } else {
      DroppedIsUnsound(views[n], t, views[n + 1], r);
    }
  }

  lemma {:induction false} SoundExactly(views: seq<map<Path, Internal>>, table: seq<Route>, n: nat)
    requires Usables(table) && Loads(views, table) && n <= |table|
    ensures SoundUpTo(views, n) <==> DropsNothingUpTo(table, n)
    ensures DropsNothingUpTo(table, n) ==> Answers(views[n], table[..n])
  {
    if n == 0 {
      assert table[..0] == [];
      EmptyRepresented(views[0]);
      assert SoundAt(views, 0);
    } else {
      var m := n - 1;
      SoundExactly(views, table, m);
      SoundUpToStep(views, table, m);
      if DropsNothingUpTo(table, m) {
        SoundStep(views, table, m);
      }
    }
  }

  /**
   What a loaded table answers in the end.  Every tree on the way is sound if and
   only if no insertion drops a leaf.  Then, whatever was answered in between, each
   address is answered by the last route that reached it, and all answers are right
   if and only if that is always the longest match.
   */
  lemma FinalAnswers(views: seq<map<Path, Internal>>, table: seq<Route>)
    requires Usables(table) && Loads(views, table)
    ensures SoundUpTo(views, |table|) <==> NoneDropped(table)
    ensures NoneDropped(table) ==>
              forall d: Address :: Read(views[|table|], KeysOf(d)) == Some(LeafOf(Reached(table, d)))
    ensures SoundUpTo(views, |table|) && Correct(views[|table|], table) <==> NoneDropped(table) && LastIsLongest(table)
  {
    SoundExactly(views, table, |table|);
    assert table[..|table|] == table;
    if NoneDropped(table) {
      AnswersCorrectly(views[|table|], table);
      forall d: Address
        ensures Read(views[|table|], KeysOf(d)) == Some(LeafOf(Reached(table, d)))
      {
        AnswersRead(views[|table|], table, d);
      }
    }
  }

  /** Every address is answered by the last route that reached it. */
  method Answer(t: Poptrie, ghost table: seq<Route>, dest: Address) returns (leaf: Leaf)
    requires Usables(table) && t.Valid() && Answers(t.view, table)
    ensures leaf == LeafOf(Reached(table, dest))
  {
    AnswersRead(t.view, table, dest);
    var entry := t.Get(dest);
    leaf := entry.value;
  }

  /** Every address is answered by the longest prefix inserted, the last of equal ones, or by (0, 0). */
  method Forward(t: Poptrie, ghost table: seq<Route>, dest: Address) returns (leaf: Leaf)
    requires Usables(table) && t.Valid() && Represents(t.view, table)
    ensures leaf == LeafOf(Lpm(table, dest))
  {
    WfIsShaped(t.view);
    var entry := t.Get(dest);
    LpmOfKeys(table, dest);
    leaf := entry.value;
  }

  // ----- Orders that are not safe ------------------------------------------

  /** The /6 ends in the root node, where the /7 has already opened the only child it covers. */
  lemma OuterFits(view: map<Path, Internal>)
    requires TrieWf(view) && SpineTo(0, 1) <= view.Keys
    ensures forall y :: KeyPath(y) && Under(0, 6, y) ==> y[..1] in view
    ensures Fits(view, 0, 6)
  {
    forall y | KeyPath(y) && Under(0, 6, y)
      ensures y[..1] in view
    {
      Pow2Values();
      ClearZero(26);
      UnderIsRange(0, 6, y);
      assert KeysOf(0)[..1] in SpineTo(0, 1);
      assert y[..1] == KeysOf(0)[..1];
    }
  }

  lemma OuterMisses(view: map<Path, Internal>, view': map<Path, Internal>)
    requires Usables([Route(0, 7, 1)]) && Represents(view, [Route(0, 7, 1)]) && Inserted(view, view', Route(0, 6, 2))
    ensures Shaped(view') && Read(view', KeysOf(0x200_0000)) == Some(Leaf(0, 0))
  {
    var inner, d: Address := [Route(0, 7, 1)], 0x200_0000;
    InnerFirstUnmatched();
    LpmOfKeys(inner, d);
    NodesSnoc([], inner[0]);
    assert [] + inner == inner;
    OuterFits(view);
    PutThatFits(view, view', 0, 6, Leaf(2, 6));
    ReadIsLookup(view', KeysOf(d));
  }

  /** Loaded in this order, the table answers an address of the /6 as if there were no route. */
  method InnerFirstMisses() returns (entry: Option<Leaf>)
    ensures entry == Some(Leaf(0, 0))
    ensures Lpm([Route(0, 7, 1), Route(0, 6, 2)], 0x200_0000) == Some(Route(0, 6, 2))
  {
    InnerFirstUnmatched();
    LpmSnoc([Route(0, 7, 1)], Route(0, 6, 2), 0x200_0000);
    assert [Route(0, 7, 1)] + [Route(0, 6, 2)] == [Route(0, 7, 1), Route(0, 6, 2)];
    OuterFirstIsSafe([Route(0, 7, 1)]);
    SafeIsKept([Route(0, 7, 1)]);
    var t := AddRoutes([Route(0, 7, 1)]);
    ghost var view := t.view;
    t.Put(0, 6, 2);
    OuterMisses(view, t.view);
    entry := t.Get(0x200_0000);
  }

  /** The addresses of the /6 are those of its two halves. */
  lemma Halves(d: Address)
    ensures Matches(Route(0, 6, 2), d) <==> Matches(Route(0, 7, 1), d) || Matches(Route(0x200_0000, 7, 3), d)
    ensures !(Matches(Route(0, 7, 1), d) && Matches(Route(0x200_0000, 7, 3), d))
  {
    HalfValues();
    ShrAdd(d, 25, 1);
    assert Shr(Shr(d, 25), 1) == Shr(d, 25) / 2;
  }

  lemma HalfValues()
    ensures Shr(0, 25) == 0 && Shr(0, 26) == 0 && Shr(0x200_0000, 25) == 1
  {
    Pow2Values();
    assert Pow2(26) == 2 * Pow2(25);
    ShrSplit(1, 0, 25, 25);
    ShrZero(25);
    ShrZero(26);
  }

  function Hidden(): (table: seq<Route>)
    ensures Usables(table) && |table| == 3
    ensures table[..0] == [] && table[..1] == [Route(0, 7, 1)] && table[..2] == [Route(0, 7, 1)] + [Route(0, 6, 2)]
    ensures table == table[..2] + [Route(0x200_0000, 7, 3)]
  {
    [Route(0, 7, 1), Route(0, 6, 2), Route(0x200_0000, 7, 3)]
  }

  /** The /6 reaches nothing, as the first /7 has opened the node behind it. */
  lemma OuterReachesNothing(d: Address)
    ensures !Reaches(Hidden()[..1], Hidden()[1], d)
  {
    var a, b := Route(0, 7, 1), Route(0, 6, 2);
    assert Matches(b, d) ==> Deeper([a], 1, d) by {
      assert [a][0] == a;
    }
  }

  /** The answers after the /7, the /6 and the other /7. */
  lemma HiddenAt(d: Address)
    ensures var table := Hidden();
            && Reached(table[..1], d) == Reached(table[..2], d)
            && LeafOf(Reached(table, d)) == LeafOf(Lpm(table, d))
            && (Reached(table[..1], d).Some? ==> Reached(table[..1], d).value.len == 7)
  {
    var a, b, c := Route(0, 7, 1), Route(0, 6, 2), Route(0x200_0000, 7, 3);
    var table := Hidden();
    Halves(d);
    OuterReachesNothing(d);
    ReachedSnoc([], a, d);
    ReachedSnoc([a], b, d);
    ReachedSnoc(table[..2], c, d);
    assert [] + [a] == [a];
    LpmSnoc([], a, d);
    LpmSnoc([a], b, d);
    LpmSnoc(table[..2], c, d);
  }

  lemma HiddenIsFine()
    ensures NoneDropped(Hidden()) && LastIsLongest(Hidden())
  {
    var table := Hidden();
    forall d: Address
      ensures Reached(table[..0], d).None? && !Reaches(table[..1], table[1], d)
      ensures Reached(table[..2], d).Some? ==> Reached(table[..2], d).value.len == 7
      ensures LeafOf(Reached(table, d)) == LeafOf(Lpm(table, d))
    {
      OuterReachesNothing(d);
      HiddenAt(d);
    }
    assert KeptAt(table, 0) && KeptAt(table, 1) && KeptAt(table, 2);
  }

  lemma FirstIsRepresented(views: seq<map<Path, Internal>>, table: seq<Route>)
    requires Usables(table) && Loads(views, table) && table != []
    ensures Represents(views[1], table[..1])
  {
    StartUpTo(views, table);
    assert NoneNested(table[..0], table[0]);
    NoneNestedIsSafe(table[..0], table[0]);
    LoadStep(views, table, 0);
  }

  /** A later route can hide a failure: with the other /7 behind the unsafe /6, all final answers are right. */
  lemma LaterRouteHides(views: seq<map<Path, Internal>>)
    requires Loads(views, Hidden())
    ensures !Correct(views[2], Hidden()[..2]) && Correct(views[3], Hidden())
  {
    HiddenIsFine();
    FinalAnswers(views, Hidden());
    FirstIsRepresented(views, Hidden());
    InnerFirstFails(views[1], views[2]);
  }

  // ----- A longer prefix at the same level -----------------------------------

  /** The run of a longer prefix in slot 0 keeps its start and loses its entry: the next two move up. */
  lemma EntriesMoveUp(n: Internal, put: Leaf)
    requires Wf(n) && !n.vector[0] && !n.vector[1] && !n.vector[2]
    requires LeafAt(n, 0).mask > put.mask >= LeafAt(n, 1).mask
    ensures EntryAt(Repainted(n, 0, 2, put), 0) == Some(put)
    ensures EntryAt(Repainted(n, 0, 2, put), 1) == Some(LeafAt(n, 2))
  {
    assert Ones(n.leafvec, 1) >= 1;
    assert n.leafvec[0];
    LeafAtRank(n, 0);
    LeafAtRank(n, 1);
    assert n.leafvec[1];
    assert StartAt(n, 0, 2, 2) && !AllChildren(n, 0, 2);
    var lv := StartsUpTo(n, 0, 2, 64);
    assert lv[0] && lv[1] && Ones(lv, 1) == 1 && Ones(lv, 2) == 2;
    assert DropsAt(n, 0, 2, put.mask, 0);
    assert Written(n, 0, 2, put, 1) == [];
    assert Written(n, 0, 2, put, 2) == [put];
    assert Written(n, 0, 2, put, 3) == [put, LeafAt(n, 2)];
    WrittenPrefix(n, 0, 2, put, 3, 64);
  }

  /** What the routes 0.0.0.0/12 and then 0.0.0.0/11 should answer. */
  lemma SameLevelRoutes()
    ensures var inner, outer := [Route(0, 12, 1)], Route(0, 11, 2);
            && Usables(inner) && Usables(inner + [outer])
            && Lpm(inner, 0) == Some(inner[0]) && Lpm(inner, 0x10_0000) == None && Lpm(inner, 0x20_0000) == None
            && Lpm(inner + [outer], 0) == Some(inner[0]) && Lpm(inner + [outer], 0x10_0000) == Some(outer)
  {
    var inner, outer := [Route(0, 12, 1)], Route(0, 11, 2);
    Pow2Values();
    assert Pow2(20) == 0x10_0000 by {
      assert Pow2(24) == 16 * Pow2(20);
      assert Pow2(26) == 4 * Pow2(24);
    }
    assert Pow2(21) == 2 * Pow2(20);
    ShrSplit(1, 0, 20, 20);
    ShrSplit(1, 0, 21, 20);
    ShrSplit(0, 0x10_0000, 21, 21);
    ShrZero(20);
    ShrZero(21);
    assert inner[..0] == [];
    LpmSnoc(inner, outer, 0);
    LpmSnoc(inner, outer, 0x10_0000);
  }

  /** The keys of the first three addresses of 0.0.0.0/12, 0.16.0.0/12 and 0.32.0.0/12. */
  lemma SlotKeys(k: nat)
    requires k < 3
    ensures k * 0x10_0000 < U32
    ensures var x := KeysOf(k * 0x10_0000); x[0] == 0 && x[1] == k && x[..1] == [0] && x[..2] == [0, k]
  {
    var d: Address := k * 0x10_0000;
    assert KeyAt(d, 0) == 0;
    assert KeyAt(d, 1) == Top(Shl(d));
  }

  /** The leaf of slot `k` of the node both prefixes end in. */
  lemma SlotLeaf(view: map<Path, Internal>, mid: map<Path, Internal>, table: seq<Route>, k: nat)
    requires Usables(table) && Represents(view, table) && TrieWf(mid) && SameLookups(view, mid) && k < 3
    requires [0] in mid && [0, k] !in mid
    ensures NodeOk(mid, [0]) && !mid[[0]].vector[k] && k * 0x10_0000 < U32
    ensures LeafAt(mid[[0]], k) == LeafOf(Lpm(table, k * 0x10_0000))
  {
    SlotKeys(k);
    var d: Address := k * 0x10_0000;
    EndsAt(mid, KeysOf(d), 1);
    LpmOfKeys(table, d);
  }

  /** The node both prefixes end in, before the second one is painted. */
  lemma SameLevelNode(view: map<Path, Internal>, mid: map<Path, Internal>, view': map<Path, Internal>)
    requires Usables([Route(0, 12, 1)]) && Represents(view, [Route(0, 12, 1)])
    requires RepaintedFrom(view, mid, view', 0, 11, Leaf(2, 11))
    ensures TrieWf(mid) && SameLookups(view, mid) && [0] in mid && forall k: nat :: [0, k] !in mid
    ensures NodeOk(mid, [0]) && view'.Keys == mid.Keys && view'[[0]] == Repainted(mid[[0]], 0, 2, Leaf(2, 11))
  {
    SlotKeys(0);
    NodesSnoc([], Route(0, 12, 1));
    assert [] + [Route(0, 12, 1)] == [Route(0, 12, 1)];
    assert KeysOf(0)[..1] in SpineTo(0, 1);
    assert Level(11) == 1 && Level(12) == 1 && Pow2(1) == 2;
    forall k: nat
      ensures [0, k] !in mid
    {
      assert |[0, k]| == 2;
    }
  }

  /**
   After a /12 the enclosing /11 overwrites it instead of leaving it alone, and
   gives its own addresses the leaf behind it; some other lookup reads outside
   the array.
   */
  lemma SameLevelMisreads(view: map<Path, Internal>, view': map<Path, Internal>) returns (d: Address)
    requires Usables([Route(0, 12, 1)]) && Represents(view, [Route(0, 12, 1)]) && Inserted(view, view', Route(0, 11, 2))
    ensures Shaped(view')
    ensures Read(view', KeysOf(0)) == Some(Leaf(2, 11)) && Read(view', KeysOf(0x10_0000)) == Some(Leaf(0, 0))
    ensures Read(view', KeysOf(d)) == None
  {
    var table := [Route(0, 12, 1)];
    PutKeepsShape(view, view', 0, 11, Leaf(2, 11));
    SameLevelRoutes();
    assert Network(0, 11) == 0 by {
      ShrZero(21);
      DblZero(21);
    }
    var mid :| RepaintedFrom(view, mid, view', Network(0, 11), 11, Leaf(2, 11));
    SameLevelNode(view, mid, view');
    SlotLeaf(view, mid, table, 0);
    SlotLeaf(view, mid, table, 1);
    SlotLeaf(view, mid, table, 2);
    EntriesMoveUp(mid[[0]], Leaf(2, 11));
    ReadSlot(view', 0);
    ReadSlot(view', 1);
    SameLevelDoesNotFit(view);
    d := DroppedIsMisread(view, view', Route(0, 11, 2));
  }

  lemma {:induction false} DblZero(n: nat)
    ensures Dbl(0, n) == 0
  {
    if n > 0 {
      DblZero(n - 1);
    }
  }

  lemma ReadSlot(view: map<Path, Internal>, k: nat)
    requires Shaped(view) && [0] in view && [0, k] !in view && k < 3
    ensures k * 0x10_0000 < U32 && Read(view, KeysOf(k * 0x10_0000)) == EntryAt(view[[0]], k)
  {
    SlotKeys(k);
    assert NodeShaped(view, [0]);
    assert [0] + [k] == [0, k];
    ReadPasses(view, KeysOf(k * 0x10_0000), 1);
  }

  lemma SameLevelDoesNotFit(view: map<Path, Internal>)
    requires Usables([Route(0, 12, 1)]) && Represents(view, [Route(0, 12, 1)])
    ensures !Fits(view, 0, 11)
  {
    SlotKeys(0);
    SameLevelRoutes();
    LpmOfKeys([Route(0, 12, 1)], 0);
    NodesSnoc([], Route(0, 12, 1));
    assert [] + [Route(0, 12, 1)] == [Route(0, 12, 1)];
    AgreeIsUnder(0, 11, 0);
    assert Lookup(view, KeysOf(0)).mask == 12;
    assert |KeysOf(0)[..2]| == 2;
  }

  /** Loading that pair: both addresses get a wrong answer. */
  method SameLevelMisses() returns (first: Option<Leaf>, second: Option<Leaf>)
    ensures first == Some(Leaf(2, 11)) && Lpm([Route(0, 12, 1), Route(0, 11, 2)], 0) == Some(Route(0, 12, 1))
    ensures second == Some(Leaf(0, 0)) && Lpm([Route(0, 12, 1), Route(0, 11, 2)], 0x10_0000) == Some(Route(0, 11, 2))
  {
    SameLevelRoutes();
    assert [Route(0, 12, 1)] + [Route(0, 11, 2)] == [Route(0, 12, 1), Route(0, 11, 2)];
    OuterFirstIsSafe([Route(0, 12, 1)]);
    SafeIsKept([Route(0, 12, 1)]);
    var t := AddRoutes([Route(0, 12, 1)]);
    ghost var view := t.view;
    t.Put(0, 11, 2);
    ghost var d := SameLevelMisreads(view, t.view);
    first := t.Get(0);
    second := t.Get(0x10_0000);
  }
}
