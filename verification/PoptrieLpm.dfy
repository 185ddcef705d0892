/**
 The poptrie against the routes it was built from: when an insertion keeps the
 lookups equal to longest-prefix match, and when it does not.
 */
module PoptrieLpm {
  import opened Options
  import opened Addresses
  import opened Routes
  import opened PoptrieNode
  import opened PoptrieTree
  import opened PoptrieTable

  /** What a lookup reports for a route, or for none. */
  function LeafOf(best: Option<Route>): Leaf {
    if best.None? then Leaf(0, 0) else Leaf(best.value.iface, best.value.len)
  }

  // ----- Longest match along keys ----------------------------------------

  ghost predicate MatchesKeys(r: Route, y: seq<nat>)
    requires Usable(r) && |y| == 6
  {
    Under(r.dest, r.len, y)
  }

  ghost function LpmKeys(table: seq<Route>, y: seq<nat>): (best: Option<Route>)
    requires Usables(table) && |y| == 6
    ensures best.Some? ==> Usable(best.value)
  {
    if table == [] then None else
    var n := |table| - 1;
    var before := LpmKeys(table[..n], y);
    if MatchesKeys(table[n], y) && (before.None? || before.value.len <= table[n].len) then Some(table[n]) else before
  }

  lemma LpmKeysSnoc(table: seq<Route>, r: Route, y: seq<nat>)
    requires Usables(table) && Usable(r) && |y| == 6
    ensures Usables(table + [r])
    ensures var before := LpmKeys(table, y);
            LpmKeys(table + [r], y) ==
            if MatchesKeys(r, y) && (before.None? || before.value.len <= r.len) then Some(r) else before
  {
    var t := table + [r];
    assert t[..|t| - 1] == table;
  }

  /** Two key sequences that lie under the same prefixes have the same longest match. */
  lemma {:induction false} LpmKeysSame(table: seq<Route>, y: seq<nat>, d: Address)
    requires Usables(table) && |y| == 6
    requires forall i :: 0 <= i < |table| ==> (MatchesKeys(table[i], y) <==> Matches(table[i], d))
    ensures LpmKeys(table, y) == Lpm(table, d)
  {
    if table != [] {
      var t := table[..|table| - 1];
      forall i | 0 <= i < |t|
        ensures MatchesKeys(t[i], y) <==> Matches(t[i], d)
      {
        assert t[i] == table[i];
      }
      LpmKeysSame(t, y, d);
      assert MatchesKeys(table[|table| - 1], y) <==> Matches(table[|table| - 1], d);
    }
  }

  lemma LpmOfKeys(table: seq<Route>, d: Address)
    requires Usables(table)
    ensures LpmKeys(table, KeysOf(d)) == Lpm(table, d)
  {
    forall i | 0 <= i < |table|
      ensures MatchesKeys(table[i], KeysOf(d)) <==> Matches(table[i], d)
    {
      AgreeIsUnder(table[i].dest, table[i].len, d);
    }
    LpmKeysSame(table, KeysOf(d), d);
  }

  // ----- Every key sequence stands for an address ------------------------

  /** The address with key `k`, followed by the keys of `rest`. */
  function Cons(k: nat, rest: Address): Address
    requires k < 64
  {
    k * 0x400_0000 + rest / 64
  }

  lemma ClearMultiple(x: nat)
    requires Clear(x, 6)
    ensures x % 64 == 0
  {
    var a := x / 2;
    var b := a / 2;
    var c := b / 2;
    var d := c / 2;
    var e := d / 2;
    assert Clear(a, 5);
    assert Clear(b, 4);
    assert Clear(c, 3);
    assert Clear(d, 2);
    assert Clear(e, 1);
    assert x == 2 * a && a == 2 * b && b == 2 * c && c == 2 * d && d == 2 * e && e == 2 * (e / 2);
  }

  /** The pieces of `Cons` come apart again, and the low bits stay clear. */
  lemma ConsKeys(k: nat, rest: Address, n: nat)
    requires k < 64 && n <= 26 && Clear(rest, n + 6)
    ensures Top(Cons(k, rest)) == k && Shl(Cons(k, rest)) == rest && Clear(Cons(k, rest), n)
  {
    ClearAdd(rest, 6, n);
    ClearMultiple(rest);
    var x := rest / 64;
    Times64(x, n);
    Pow2Values();
    ShrSplit(k, x, 26, n);
    ShlLow(Cons(k, rest));
    assert Cons(k, rest) / 0x400_0000 == k && Cons(k, rest) % 0x400_0000 == x;
  }

  lemma LastKey(q: nat) returns (r: Address)
    requires q < 4
    ensures Top(r) == q * 16 && Clear(r, 30)
  {
    r := q * 0x4000_0000;
    Pow2Values();
    assert Pow2(30) == 16 * Pow2(26);
    ShrSplit(q, 0, 30, 30);
    ClearZero(30);
  }

  lemma {:induction false} ClearZero(n: nat)
    ensures Clear(0, n)
  {
    if n > 0 {
      ClearZero(n - 1);
    }
  }

  lemma {:induction false} RestOfShl(d: Address, n: nat)
    ensures Rest(Shl(d), n) == Rest(d, n + 1)
  {
    if n > 0 {
      RestOfShl(d, n - 1);
    }
  }

  /** An address that starts with the keys of `y` from `j` on. */
  lemma {:induction false} SuffixAddress(y: seq<nat>, j: nat) returns (r: Address)
    requires KeyPath(y) && j <= 5
    ensures forall i: nat :: j + i <= 5 ==> KeyAt(r, i) == if j + i == 5 then y[5] / 16 * 16 else y[j + i]
    ensures Clear(r, 6 * j)
    decreases 5 - j
  {
    if j == 5 {
      r := LastKey(y[5] / 16);
    } else {
      var rest := SuffixAddress(y, j + 1);
      r := Cons(y[j], rest);
      ConsKeys(y[j], rest, 6 * j);
      forall i: nat | j + i <= 5
        ensures KeyAt(r, i) == if j + i == 5 then y[5] / 16 * 16 else y[j + i]
      {
        if i > 0 {
          RestOfShl(r, i - 1);
          assert KeyAt(r, i) == KeyAt(rest, i - 1);
        }
      }
    }
  }

  lemma AddressOf(y: seq<nat>) returns (d: Address)
    requires KeyPath(y)
    ensures forall j :: 0 <= j < 5 ==> KeyAt(d, j) == y[j]
    ensures KeyAt(d, 5) == y[5] / 16 * 16
  {
    d := SuffixAddress(y, 0);
  }

  lemma Shr4(k: nat)
    ensures Shr(k, 4) == k / 16
  {
    assert Shr(k, 4) == Shr(k / 2, 3) == Shr(k / 2 / 2, 2);
    assert Shr(k / 2 / 2, 2) == Shr(k / 2 / 2 / 2, 1);
    assert Shr(k / 2 / 2 / 2, 1) == Shr(k / 2 / 2 / 2 / 2, 0);
  }

  lemma HighBits(k: nat, n: nat)
    requires k < 64 && 4 <= n <= 6
    ensures Shr(k, n) == Shr(k / 16 * 16, n)
  {
    ShrAdd(k, 4, n - 4);
    ShrAdd(k / 16 * 16, 4, n - 4);
    Shr4(k);
    Shr4(k / 16 * 16);
  }

  /** An address whose keys are `y`, as far as any prefix can see. */
  lemma AddressUnder(y: seq<nat>, d: Address, p: Address, len: nat)
    requires KeyPath(y) && 1 <= len <= 32
    requires (forall j :: 0 <= j < 5 ==> KeyAt(d, j) == y[j]) && KeyAt(d, 5) == y[5] / 16 * 16
    ensures Under(p, len, y) <==> Agree(p, len, d)
  {
    AgreeIsUnder(p, len, d);
    UnderSays(p, len, y, 0);
    UnderSays(p, len, KeysOf(d), 0);
    if Level(len) == 5 {
      HighBits(y[5], 36 - len);
    }
  }

  // ----- The nodes a table needs -----------------------------------------

  ghost function Nodes(table: seq<Route>): set<Path>
    requires Usables(table)
  {
    if table == [] then {[]}
    else
      var r := table[|table| - 1];
      Nodes(table[..|table| - 1]) + SpineTo(r.dest, Level(r.len))
  }

  /** Some route is longer than the first `n` keys and agrees with `d` on them. */
  ghost predicate Deeper(table: seq<Route>, n: nat, d: Address)
    requires Usables(table)
  {
    n <= 5 && exists i :: 0 <= i < |table| && table[i].len > 6 * n && Agree(table[i].dest, 6 * n, d)
  }

  lemma AgreeOnKeys(p: Address, n: nat, d: Address)
    requires 1 <= n <= 5
    ensures Agree(p, 6 * n, d) <==> KeysOf(p)[..n] == KeysOf(d)[..n]
  {
    AgreeIsUnder(p, 6 * n, d);
    UnderSays(p, 6 * n, KeysOf(d), 0);
    assert Level(6 * n) == n - 1;
    if KeysOf(p)[..n] == KeysOf(d)[..n] {
      forall i | 0 <= i < n
        ensures KeyAt(p, i) == KeyAt(d, i)
      {
        assert KeysOf(p)[..n][i] == KeysOf(d)[..n][i];
      }
    }
  }

  lemma {:induction false} NodesAreDeeper(table: seq<Route>, n: nat, d: Address)
    requires Usables(table) && 1 <= n <= 6
    ensures KeysOf(d)[..n] in Nodes(table) <==> Deeper(table, n, d)
  {
    if table != [] {
      var t, r := table[..|table| - 1], table[|table| - 1];
      NodesAreDeeper(t, n, d);
      if n <= 5 {
        AgreeOnKeys(r.dest, n, d);
        DeeperSnoc(t, r, n, d);
        assert table == t + [r];
      }
      if KeysOf(d)[..n] in SpineTo(r.dest, Level(r.len)) {
        var j :| 0 <= j <= Level(r.len) && KeysOf(d)[..n] == KeysOf(r.dest)[..j];
        assert j == n;
      }
    }
  }

  lemma DeeperSnoc(t: seq<Route>, r: Route, n: nat, d: Address)
    requires Usables(t) && Usable(r) && n <= 5
    ensures Usables(t + [r])
    ensures Deeper(t + [r], n, d) <==> Deeper(t, n, d) || (r.len > 6 * n && Agree(r.dest, 6 * n, d))
  {
    var table := t + [r];
    if Deeper(t, n, d) {
      var i :| 0 <= i < |t| && t[i].len > 6 * n && Agree(t[i].dest, 6 * n, d);
      assert table[i] == t[i];
    }
    if r.len > 6 * n && Agree(r.dest, 6 * n, d) {
      assert table[|t|] == r;
    }
  }

  // ----- Representing a table --------------------------------------------

  /** A sound tree with exactly the nodes the routes need, whose lookups are longest-prefix match. */
  ghost predicate Represents(view: map<Path, Internal>, table: seq<Route>)
    requires Usables(table)
  {
    && TrieWf(view)
    && view.Keys == Nodes(table)
    && forall y :: KeyPath(y) ==> Lookup(view, y) == LeafOf(LpmKeys(table, y))
  }

  /** Every lookup reads within its leaf array, and what it reads is the longest-prefix match. */
  ghost predicate Correct(view: map<Path, Internal>, table: seq<Route>)
    requires Usables(table) && Shaped(view)
  {
    forall d: Address :: Read(view, KeysOf(d)) == Some(LeafOf(Lpm(table, d)))
  }

  lemma RepresentsCorrect(view: map<Path, Internal>, table: seq<Route>)
    requires Usables(table) && Represents(view, table)
    ensures Shaped(view) && Correct(view, table)
  {
    WfIsShaped(view);
    forall d: Address
      ensures Read(view, KeysOf(d)) == Some(LeafOf(Lpm(table, d)))
    {
      ReadIsLookup(view, KeysOf(d));
      LpmOfKeys(table, d);
    }
  }

  /** What `Poptrie.Put` does, on values. */
  ghost predicate Inserted(view: map<Path, Internal>, view': map<Path, Internal>, r: Route)
    requires TrieWf(view) && Usable(r)
  {
    Puts(view, view', r.dest, r.len, Leaf(r.iface, r.len))
  }

  /** An address whose lookup reads the slot `k` of the node at `p`. */
  lemma AddressAt(view: map<Path, Internal>, p: Path, k: nat) returns (d: Address)
    requires Shaped(view) && p in view && k < 64 && !view[p].vector[k] && (|p| == 5 ==> k % 16 == 0)
    ensures Read(view, KeysOf(d)) == EntryAt(view[p], k)
  {
    var y := SlotPath(view, p, k);
    d := AddressOf(y);
    var x := KeysOf(d);
    assert x[|p|] == y[|p|];
    assert x[..|p|] == y[..|p|];
    ReadPasses(view, x, |p|);
  }

  /** Some keys that lead through the node at `p` to its slot `k`. */
  lemma SlotPath(view: map<Path, Internal>, p: Path, k: nat) returns (y: Path)
    requires Shaped(view) && p in view && k < 64
    ensures KeyPath(y) && |p| <= 5 && y[..|p|] == p && y[|p|] == k
  {
    assert NodeShaped(view, p);
    y := p + [k] + seq(5 - |p|, i => 0);
    KeysInRange(view, p);
  }

  lemma {:induction false} KeysInRange(view: map<Path, Internal>, p: Path)
    requires Shaped(view) && p in view
    ensures forall j :: 0 <= j < |p| ==> p[j] < 64
    decreases |p|
  {
    assert NodeShaped(view, p);
    if p != [] {
      KeysInRange(view, p[..|p| - 1]);
      assert forall j :: 0 <= j < |p| - 1 ==> p[j] == p[..|p| - 1][j];
    }
  }

  /** An insertion that drops leaves makes some lookup read outside its leaf array. */
  lemma DroppedIsMisread(view: map<Path, Internal>, view': map<Path, Internal>, r: Route) returns (d: Address)
    requires TrieWf(view) && Usable(r) && Inserted(view, view', r) && !Fits(view, r.dest, r.len)
    ensures Shaped(view') && Read(view', KeysOf(d)) == None
  {
    PutKeepsShape(view, view', r.dest, r.len, Leaf(r.iface, r.len));
    var k := PutThatDoesNotFit(view, view', r.dest, r.len, Leaf(r.iface, r.len));
    d := AddressAt(view', KeysOf(r.dest)[..Level(r.len)], k);
  }

  // ----- When an insertion is correct ------------------------------------

  /**
   The insertion of `r` serves address `d`.  Where a longer route has already
   opened a child below the level of `r`, that child is not revisited, so `d`
   must be answered by a longer route, or already by this very leaf.
   Elsewhere no route longer than `r` may hold `d`.
   */
  ghost predicate Serves(table: seq<Route>, r: Route, d: Address)
    requires Usables(table) && Usable(r)
  {
    var best := Lpm(table, d);
    if Deeper(table, Level(r.len) + 1, d) then
      best.Some? && (best.value.len > r.len || LeafOf(best) == Leaf(r.iface, r.len))
    else
      best.None? || best.value.len <= r.len
  }

  ghost predicate Safe(table: seq<Route>, r: Route)
    requires Usables(table) && Usable(r)
  {
    forall d: Address :: Matches(r, d) ==> Serves(table, r, d)
  }

  /** The same at a key sequence. */
  lemma ServesKeys(table: seq<Route>, r: Route, y: seq<nat>)
    requires Usables(table) && Usable(r) && KeyPath(y) && Safe(table, r) && MatchesKeys(r, y)
    ensures var best := LpmKeys(table, y);
            if y[..Level(r.len) + 1] in Nodes(table) && Level(r.len) < 5 then
              best.Some? && (best.value.len > r.len || LeafOf(best) == Leaf(r.iface, r.len))
            else best.None? || best.value.len <= r.len
  {
    var d := AddressOf(y);
    AddressUnder(y, d, r.dest, r.len);
    assert Serves(table, r, d);
    forall i | 0 <= i < |table|
      ensures MatchesKeys(table[i], y) <==> Matches(table[i], d)
    {
      AddressUnder(y, d, table[i].dest, table[i].len);
    }
    LpmKeysSame(table, y, d);
    NodesAreDeeper(table, Level(r.len) + 1, d);
    if Level(r.len) < 5 {
      assert y[..Level(r.len) + 1] == KeysOf(d)[..Level(r.len) + 1];
    }
  }

  lemma NodesSnoc(table: seq<Route>, r: Route)
    requires Usables(table) && Usable(r)
    ensures Usables(table + [r]) && Nodes(table + [r]) == Nodes(table) + SpineTo(r.dest, Level(r.len))
  {
    assert (table + [r])[..|table + [r]| - 1] == table;
  }

  lemma {:induction false} NodesAreShort(table: seq<Route>, q: Path)
    requires Usables(table) && q in Nodes(table)
    ensures |q| <= 5
  {
    if table != [] {
      var r := table[|table| - 1];
      if q !in SpineTo(r.dest, Level(r.len)) {
        NodesAreShort(table[..|table| - 1], q);
      }
    }
  }

  /** What a safe insertion finds along `y`, and what it has to find afterwards. */
  lemma SafeAlong(view: map<Path, Internal>, table: seq<Route>, r: Route, y: seq<nat>)
    requires Usables(table) && Usable(r) && Represents(view, table) && Safe(table, r) && KeyPath(y)
    ensures Usables(table + [r])
    ensures Under(r.dest, r.len, y) && y[..Level(r.len) + 1] !in view ==> Lookup(view, y).mask <= r.len
    ensures LeafOf(LpmKeys(table + [r], y)) ==
            if Under(r.dest, r.len, y) && y[..Level(r.len) + 1] !in view then Leaf(r.iface, r.len) else Lookup(view, y)
  {
    LpmKeysSnoc(table, r, y);
    if MatchesKeys(r, y) {
      ServesKeys(table, r, y);
      if y[..Level(r.len) + 1] in Nodes(table) {
        NodesAreShort(table, y[..Level(r.len) + 1]);
      }
    }
  }

  /** A safe insertion leaves the table represented. */
  lemma SafeRepresents(view: map<Path, Internal>, table: seq<Route>, view': map<Path, Internal>, r: Route)
    requires Usables(table) && Usable(r) && Represents(view, table) && Inserted(view, view', r) && Safe(table, r)
    ensures Usables(table + [r]) && Represents(view', table + [r])
  {
    NodesSnoc(table, r);
    PutKeepsShape(view, view', r.dest, r.len, Leaf(r.iface, r.len));
    forall y | KeyPath(y) && Under(r.dest, r.len, y) && y[..Level(r.len) + 1] !in view
      ensures Lookup(view, y).mask <= r.len
    {
      SafeAlong(view, table, r, y);
    }
    assert Fits(view, r.dest, r.len);
    PutThatFits(view, view', r.dest, r.len, Leaf(r.iface, r.len));
    forall y | KeyPath(y)
      ensures Lookup(view', y) == LeafOf(LpmKeys(table + [r], y))
    {
      SafeAlong(view, table, r, y);
    }
  }

  /** An insertion that fits and does not serve `d` leaves `d` wrong. */
  lemma UnservedAnswersWrong(view: map<Path, Internal>, table: seq<Route>, view': map<Path, Internal>, r: Route,
                             d: Address)
    requires Usables(table) && Usable(r) && Represents(view, table) && Inserted(view, view', r)
    requires Matches(r, d) && !Serves(table, r, d) && Fits(view, r.dest, r.len)
    ensures Usables(table + [r]) && Shaped(view')
    ensures Read(view', KeysOf(d)) != Some(LeafOf(Lpm(table + [r], d)))
  {
    var y := KeysOf(d);
    AgreeIsUnder(r.dest, r.len, d);
    LpmOfKeys(table, d);
    LpmSnoc(table, r, d);
    NodesAreDeeper(table, Level(r.len) + 1, d);
    PutThatFits(view, view', r.dest, r.len, Leaf(r.iface, r.len));
    ReadIsLookup(view', y);
    assert Lookup(view, y) == LeafOf(Lpm(table, d));
  }

  /** An insertion that does not serve some address makes a lookup wrong, of that address or out of range. */
  lemma UnservedIncorrect(view: map<Path, Internal>, table: seq<Route>, view': map<Path, Internal>, r: Route,
                          d: Address)
    returns (e: Address)
    requires Usables(table) && Usable(r) && Represents(view, table) && Inserted(view, view', r)
    requires Matches(r, d) && !Serves(table, r, d)
    ensures Usables(table + [r]) && Shaped(view')
    ensures if Fits(view, r.dest, r.len) then e == d && Read(view', KeysOf(e)) != Some(LeafOf(Lpm(table + [r], e)))
            else Read(view', KeysOf(e)) == None
  {
    LpmSnoc(table, r, d);
    if Fits(view, r.dest, r.len) {
      UnservedAnswersWrong(view, table, view', r, d);
      e := d;
    } else {
      e := DroppedIsMisread(view, view', r);
    }
  }

  /**
   Exactly when an insertion keeps every lookup equal to longest-prefix match.
   `Safe` speaks of the routes only, so it can be decided before the call.
   */
  lemma PutCorrectIffSafe(view: map<Path, Internal>, table: seq<Route>, view': map<Path, Internal>, r: Route)
    requires Usables(table) && Usable(r) && Represents(view, table) && Inserted(view, view', r)
    ensures Usables(table + [r]) && Shaped(view')
    ensures Correct(view', table + [r]) <==> Safe(table, r)
  {
    LpmSnoc(table, r, 0);
    PutKeepsShape(view, view', r.dest, r.len, Leaf(r.iface, r.len));
    if Safe(table, r) {
      SafeRepresents(view, table, view', r);
      RepresentsCorrect(view', table + [r]);
    } else {
      var d: Address :| Matches(r, d) && !Serves(table, r, d);
      var e := UnservedIncorrect(view, table, view', r, d);
    }
  }

  // ----- Orders of insertion that are safe -------------------------------

  /** No strictly longer route nested in `r` is already there. */
  ghost predicate NoneNested(table: seq<Route>, r: Route)
    requires Usables(table) && Usable(r)
  {
    forall i :: 0 <= i < |table| ==> !(table[i].len > r.len && Agree(r.dest, r.len, table[i].dest))
  }

  ghost predicate OuterFirst(table: seq<Route>)
    requires Usables(table)
  {
    forall j :: 0 <= j < |table| ==> NoneNested(table[..j], table[j])
  }

  lemma NestedAt(r: Route, e: Route, len: nat, d: Address)
    requires Usable(r) && r.len <= len <= 32 && Matches(r, d) && Agree(e.dest, len, d)
    ensures Agree(r.dest, r.len, e.dest)
  {
    AgreeShorter(e.dest, len, r.len, d);
  }

  lemma NoneNestedIsSafe(table: seq<Route>, r: Route)
    requires Usables(table) && Usable(r) && NoneNested(table, r)
    ensures Safe(table, r)
  {
    forall d: Address | Matches(r, d)
      ensures Serves(table, r, d)
    {
      var n := Level(r.len) + 1;
      if Deeper(table, n, d) {
        var i :| 0 <= i < |table| && table[i].len > 6 * n && Agree(table[i].dest, 6 * n, d);
        NestedAt(r, table[i], 6 * n, d);
      }
      var best := Lpm(table, d);
      if best.Some? && best.value.len > r.len {
        NestedAt(r, best.value, best.value.len, d);
      }
    }
  }

  lemma {:induction false} ClearDbl(d: nat, n: nat)
    requires Clear(d, n)
    ensures Dbl(Shr(d, n), n) == d
  {
    if n > 0 {
      ClearDbl(d / 2, n - 1);
      DblIn(Shr(d / 2, n - 1), n - 1);
    }
  }

  /** A table of network addresses sorted by address, then length, can be inserted in order. */
  lemma SortedIsOuterFirst(table: seq<Route>)
    requires Usables(table)
    requires forall i :: 0 <= i < |table| ==> Clear(table[i].dest, 32 - table[i].len)
    requires forall i, j :: 0 <= i < j < |table| ==>
               table[i].dest < table[j].dest || (table[i].dest == table[j].dest && table[i].len <= table[j].len)
    ensures OuterFirst(table)
  {
    forall i, j | 0 <= i < j < |table| && table[i].len > table[j].len
      ensures !Agree(table[j].dest, table[j].len, table[i].dest)
    {
      var n := 32 - table[j].len;
      if Shr(table[j].dest, n) == Shr(table[i].dest, n) {
        ClearDbl(table[j].dest, n);
        DblShr(table[i].dest, n);
      }
    }
  }

  lemma {:induction false} ShrZero(n: nat)
    ensures Shr(0, n) == 0
  {
    if n > 0 {
      ShrZero(n - 1);
    }
  }

  /** An address of 0.0.0.0/6 outside 0.0.0.0/7. */
  lemma InnerFirstUnmatched()
    ensures Matches(Route(0, 6, 2), 0x200_0000)
    ensures Usables([Route(0, 7, 1)]) && Lpm([Route(0, 7, 1)], 0x200_0000) == None
  {
    Pow2Values();
    assert Pow2(26) == 2 * Pow2(25);
    ShrSplit(1, 0, 25, 25);
    ShrZero(25);
    ShrZero(26);
    TopIsShr(0x200_0000);
    assert [Route(0, 7, 1)][..0] == [];
  }

  /** The order matters: after a /7, the enclosing /6 misses the addresses the /7 does not hold. */
  lemma InnerFirstFails(view: map<Path, Internal>, view': map<Path, Internal>)
    requires Usables([Route(0, 7, 1)]) && Represents(view, [Route(0, 7, 1)]) && Inserted(view, view', Route(0, 6, 2))
    ensures Usables([Route(0, 7, 1)] + [Route(0, 6, 2)]) && Shaped(view')
    ensures !Correct(view', [Route(0, 7, 1)] + [Route(0, 6, 2)])
  {
    var table, r, d: Address := [Route(0, 7, 1)], Route(0, 6, 2), 0x200_0000;
    InnerFirstUnmatched();
    assert Agree(table[0].dest, 6, d);
    assert Deeper(table, 1, d);
    var e := UnservedIncorrect(view, table, view', r, d);
  }
}
