/** The one-bit trie, the list scan and the poptrie answer alike. */
module BaseLpm {
  import opened Options
  import opened Addresses
  import opened Routes
  import opened BaseTrie
  import P = PoptrieTree
  import N = PoptrieNode
  import L = PoptrieLpm
  import B = PoptrieBuild

  /** The last route inserted at a path. */
  ghost function LastAt(table: seq<Route>, p: Path): Option<Route>
    requires Usables(table)
  {
    if table == [] then None else
    var r := table[|table| - 1];
    if BitsOf(r.dest, r.len) == p then Some(r) else LastAt(table[..|table| - 1], p)
  }

  /** The route at the longest of the first `n` prefixes of an address that has one. */
  ghost function LongestAt(table: seq<Route>, d: Address, n: nat): Option<Route>
    requires Usables(table) && n <= 32
  {
    if n == 0 then None
    else if LastAt(table, BitsOf(d, n)).Some? then LastAt(table, BitsOf(d, n))
    else LongestAt(table, d, n - 1)
  }

  lemma {:induction false} LastAtLength(table: seq<Route>, p: Path)
    requires Usables(table) && LastAt(table, p).Some?
    ensures Usable(LastAt(table, p).value) && LastAt(table, p).value.len == |p|
  {
    var r := table[|table| - 1];
    if BitsOf(r.dest, r.len) != p {
      LastAtLength(table[..|table| - 1], p);
    }
  }

  lemma {:induction false} LongestAtSnoc(table: seq<Route>, r: Route, d: Address, n: nat)
    requires Usables(table) && Usable(r) && n <= 32
    ensures Usables(table + [r])
    ensures var before := LongestAt(table, d, n);
            LongestAt(table + [r], d, n) ==
            if Matches(r, d) && r.len <= n && (before.None? || before.value.len <= r.len) then Some(r) else before
    ensures LongestAt(table, d, n).Some? ==> LongestAt(table, d, n).value.len <= n
  {
    var t := table + [r];
    assert t[..|t| - 1] == table;
    if n > 0 {
      LongestAtSnoc(table, r, d, n - 1);
      AgreeIsPath(r.dest, r.len, d);
      if LastAt(table, BitsOf(d, n)).Some? {
        LastAtLength(table, BitsOf(d, n));
      }
      assert BitsOf(r.dest, r.len) == BitsOf(d, n) <==> r.len == n && Matches(r, d);
    }
  }

  /** The walk down the path finds the longest-prefix match. */
  lemma {:induction false} LongestAtIsLpm(table: seq<Route>, d: Address)
    requires Usables(table)
    ensures LongestAt(table, d, 32) == Lpm(table, d)
  {
    if table == [] {
      NothingAt(d, 32);
    } else {
      var t, r := table[..|table| - 1], table[|table| - 1];
      LongestAtIsLpm(t, d);
      LongestAtSnoc(t, r, d, 32);
      assert t + [r] == table;
    }
  }

  lemma {:induction false} NothingAt(d: Address, n: nat)
    requires n <= 32
    ensures LongestAt([], d, n) == None
  {
    if n > 0 {
      NothingAt(d, n - 1);
    }
  }

  /** The trie stores exactly the last route of every path. */
  ghost predicate Holds(t: Trie, table: seq<Route>)
    requires Usables(table)
    reads t, t.at.Values
  {
    forall p :: t.Stored(p) ==
      if LastAt(table, p).None? then None else Some((LastAt(table, p).value.iface, LastAt(table, p).value.dest))
  }

  method AddRoutes(table: seq<Route>) returns (t: Trie)
    requires Usables(table)
    ensures fresh(t) && t.Valid() && Holds(t, table)
  {
    t := new Trie();
    assert table[..0] == [];
    for i := 0 to |table|
      invariant fresh(t) && fresh(t.at.Values) && t.Valid() && Holds(t, table[..i])
    {
      t.Put(table[i].iface, table[i].len, table[i].dest);
      assert table[..i + 1][..i] == table[..i] && table[..i + 1][i] == table[i];
    }
    assert table[..|table|] == table;
  }

  lemma {:induction false} FirstStored(t: Trie, table: seq<Route>, d: Address, n: nat, m: nat)
    requires Usables(table) && Holds(t, table) && n <= m <= 32
    requires forall k :: n < k <= m ==> t.Stored(BitsOf(d, k)) == None
    ensures LongestAt(table, d, m) == LongestAt(table, d, n)
    decreases m
  {
    if n < m {
      assert t.Stored(BitsOf(d, m)) == None;
      FirstStored(t, table, d, n, m - 1);
    }
  }

  /** Lookup in the one-bit trie is longest-prefix match; NULL when nothing matches. */
  method Forward(t: Trie, ghost table: seq<Route>, dest: Address) returns (result: Option<nat>)
    requires Usables(table) && t.Valid() && Holds(t, table)
    ensures result == if Lpm(table, dest).None? then None else Some(Lpm(table, dest).value.iface)
  {
    var node := t.Get(dest);
    LongestAtIsLpm(table, dest);
    if node == null {
      FirstStored(t, table, dest, 0, 32);
      return None;
    }
    ghost var n :| t.FoundAt(dest, node, n);
    FirstStored(t, table, dest, n, 32);
    assert t.Stored(BitsOf(dest, n)) == Some((node.iface, node.dest));
    return Some(node.iface);
  }

  /**
   The compressed and the plain trie agree: built from the same routes, in an
   order that is safe for the poptrie, they give the same interface wherever a
   route matches, and the poptrie gives (0, 0) where the plain trie gives NULL.
   */
  lemma TriesAgree(view: map<P.Path, N.Internal>, table: seq<Route>, d: Address, plain: Option<nat>)
    requires Usables(table) && L.Represents(view, table)
    requires plain == if Lpm(table, d).None? then None else Some(Lpm(table, d).value.iface)
    ensures P.Lookup(view, KeysOf(d)).iface == if plain.None? then 0 else plain.value
    ensures plain.None? <==> P.Lookup(view, KeysOf(d)).mask == 0
  {
    L.LpmOfKeys(table, d);
  }

  /** Loads the same table into both structures and looks up the same address. */
  method LoadBoth(table: seq<Route>, dest: Address) returns (leaf: N.Leaf, plain: Option<nat>)
    requires Usables(table) && B.SafeSequence(table)
    ensures leaf.iface == if plain.None? then 0 else plain.value
    ensures plain.None? <==> leaf.mask == 0
    ensures plain.None? <==> forall i :: 0 <= i < |table| ==> !Matches(table[i], dest)
  {
    B.SafeIsKept(table);
    var poptrie := B.AddRoutes(table);
    var base := AddRoutes(table);
    leaf := B.Forward(poptrie, table, dest);
    plain := Forward(base, table, dest);
    ghost var w := LpmIsWinner(table, dest);
  }
}
