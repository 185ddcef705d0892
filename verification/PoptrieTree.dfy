/**
 The tree a poptrie stands for: which nodes exist, by the keys that lead to
 them, and what a lookup along a sequence of keys finds.  The two changes an
 insertion makes -- turning a leaf slot into a child, and overwriting a range
 of leaf slots -- are characterised by what they do to every lookup.
 */
module PoptrieTree {
  import opened Options
  import opened Addresses
  import opened PoptrieNode

  type Path = seq<nat>

  /** Six keys, enough to walk from the root to a leaf at the deepest level. */
  ghost predicate KeyPath(x: seq<nat>) {
    |x| == 6 && forall j :: 0 <= j < 6 ==> x[j] < 64
  }

  /** The children of a node are the nodes one key longer, and no run starts at a child. */
  ghost predicate NodeShaped(view: map<Path, Internal>, p: Path)
    requires p in view
  {
    && |p| <= 5
    && (forall k :: 0 <= k < 64 ==> !(view[p].vector[k] && view[p].leafvec[k]))
    && (forall k: nat :: k < 64 ==> (view[p].vector[k] <==> p + [k] in view))
    && (p != [] ==> p[..|p| - 1] in view && p[|p| - 1] < 64)
  }

  /** What even an insertion that drops leaves keeps: the nodes form a tree. */
  ghost predicate Shaped(view: map<Path, Internal>) {
    && [] in view
    && forall p {:trigger NodeShaped(view, p)} :: p in view ==> NodeShaped(view, p)
  }

  /** At the deepest level an address decides between four slots only, and runs start there. */
  ghost predicate Aligned(n: Internal, depth: nat) {
    depth == 5 ==> forall k :: 0 <= k < 64 && n.leafvec[k] ==> k % 16 == 0
  }

  ghost predicate NodeOk(view: map<Path, Internal>, p: Path)
    requires p in view
  {
    NodeShaped(view, p) && Wf(view[p]) && AllPlaced(view[p], |p|) && Aligned(view[p], |p|)
  }

  ghost predicate TrieWf(view: map<Path, Internal>) {
    && [] in view
    && forall p {:trigger NodeOk(view, p)} :: p in view ==> NodeOk(view, p)
  }

  /** The lookup from the node at the first `j` keys of `x`. */
  ghost function Find(view: map<Path, Internal>, x: seq<nat>, j: nat): Leaf
    requires TrieWf(view) && KeyPath(x) && j <= 5 && x[..j] in view
    decreases 6 - j
  {
    assert NodeOk(view, x[..j]);
    assert x[..j] + [x[j]] == x[..j + 1];
    if view[x[..j]].vector[x[j]] then
      assert NodeOk(view, x[..j + 1]);
      Find(view, x, j + 1)
    else LeafAt(view[x[..j]], x[j])
  }

  ghost function Lookup(view: map<Path, Internal>, x: seq<nat>): Leaf
    requires TrieWf(view) && KeyPath(x)
  {
    Find(view, x, 0)
  }

  /** A node on the way is reached. */
  lemma {:induction false} FindPasses(view: map<Path, Internal>, x: seq<nat>, j: nat)
    requires TrieWf(view) && KeyPath(x) && j <= 5 && x[..j] in view
    ensures Lookup(view, x) == Find(view, x, j)
  {
    if j > 0 {
      assert NodeOk(view, x[..j]);
      assert x[..j][..j - 1] == x[..j - 1];
      assert NodeOk(view, x[..j - 1]);
      assert x[..j - 1] + [x[j - 1]] == x[..j];
      FindPasses(view, x, j - 1);
    }
  }

  // ----- Reading without knowing that the leaf arrays are long enough -------

  /** The entry a slot is answered from; none if its index lies outside the array. */
  function EntryAt(n: Internal, k: nat): Option<Leaf>
    requires k < 64
  {
    var r := Ones(n.leafvec, k + 1);
    if 1 <= r <= |n.leaf| then Some(n.leaf[r - 1]) else None
  }

  ghost function ReadFrom(view: map<Path, Internal>, x: seq<nat>, j: nat): Option<Leaf>
    requires Shaped(view) && KeyPath(x) && j <= 5 && x[..j] in view
    decreases 6 - j
  {
    assert NodeShaped(view, x[..j]);
    assert x[..j] + [x[j]] == x[..j + 1];
    if view[x[..j]].vector[x[j]] then
      assert NodeShaped(view, x[..j + 1]);
      ReadFrom(view, x, j + 1)
    else EntryAt(view[x[..j]], x[j])
  }

  /** What a lookup reads. */
  ghost function Read(view: map<Path, Internal>, x: seq<nat>): Option<Leaf>
    requires Shaped(view) && KeyPath(x)
  {
    ReadFrom(view, x, 0)
  }

  lemma WfIsShaped(view: map<Path, Internal>)
    requires TrieWf(view)
    ensures Shaped(view)
  {
    forall p | p in view
      ensures NodeShaped(view, p)
    {
      assert NodeOk(view, p);
    }
  }

  lemma {:induction false} ReadFromIsFind(view: map<Path, Internal>, x: seq<nat>, j: nat)
    requires TrieWf(view) && Shaped(view) && KeyPath(x) && j <= 5 && x[..j] in view
    ensures ReadFrom(view, x, j) == Some(Find(view, x, j))
    decreases 6 - j
  {
    assert NodeOk(view, x[..j]);
    assert x[..j] + [x[j]] == x[..j + 1];
    if view[x[..j]].vector[x[j]] {
      assert NodeOk(view, x[..j + 1]);
      ReadFromIsFind(view, x, j + 1);
    } else {
      SlotExists(view[x[..j]], x[j]);
    }
  }

  /** In a sound tree every read is in range and finds the leaf. */
  lemma ReadIsLookup(view: map<Path, Internal>, x: seq<nat>)
    requires TrieWf(view) && KeyPath(x)
    ensures Shaped(view) && Read(view, x) == Some(Lookup(view, x))
  {
    WfIsShaped(view);
    assert x[..0] == [];
    ReadFromIsFind(view, x, 0);
  }

  /** A node on the way is reached. */
  lemma {:induction false} ReadPasses(view: map<Path, Internal>, x: seq<nat>, j: nat)
    requires Shaped(view) && KeyPath(x) && j <= 5 && x[..j] in view
    ensures Read(view, x) == ReadFrom(view, x, j)
  {
    if j > 0 {
      assert NodeShaped(view, x[..j]);
      assert x[..j][..j - 1] == x[..j - 1];
      assert NodeShaped(view, x[..j - 1]);
      assert x[..j - 1] + [x[j - 1]] == x[..j];
      ReadPasses(view, x, j - 1);
    }
  }

  // ----- Turning a leaf slot into a child --------------------------------

  ghost predicate IsFresh(n: Internal, leaf: Leaf) {
    n.vector == seq(64, i => false) && n.leafvec == seq(64, i => i == 0) && n.leaf == [leaf]
  }

  lemma {:induction false} FreshOnes(k: nat)
    requires k <= 64
    ensures Ones(seq(64, i => i == 0), k) == if k == 0 then 0 else 1
  {
    if k > 0 {
      FreshOnes(k - 1);
    }
  }

  lemma FreshWf(n: Internal, leaf: Leaf, depth: nat)
    requires IsFresh(n, leaf) && leaf.mask <= 6 * depth
    ensures Wf(n) && AllPlaced(n, depth) && Aligned(n, depth)
    ensures forall k :: 0 <= k < 64 ==> LeafAt(n, k) == leaf
  {
    forall k | 0 <= k <= 64
      ensures Ones(n.leafvec, k) == if k == 0 then 0 else 1
    {
      FreshOnes(k);
    }
  }

  /** The leaf in slot `key` of node `p` has become a node of its own. */
  ghost predicate Expanded(view: map<Path, Internal>, view': map<Path, Internal>, p: Path, key: nat)
    requires TrieWf(view)
  {
    && p in view && |p| <= 4 && key < 64 && p + [key] !in view
    && view'.Keys == view.Keys + {p + [key]}
    && (forall q :: q in view && q != p ==> view'[q] == view[q])
    && NodeOk(view, p)
    && MadeRoom(view[p], view'[p], key) && StartsKept(view[p], view'[p], key)
    && IsFresh(view'[p + [key]], LeafAt(view[p], key))
  }

  lemma RoomStaysPlaced(n: Internal, n': Internal, key: nat, depth: nat)
    requires Wf(n) && AllPlaced(n, depth) && key < 64 && !n.vector[key]
    requires MadeRoom(n, n', key) && StartsKept(n, n', key)
    ensures AllPlaced(n', depth)
  {
    forall k | 0 <= k < 64 && !n'.vector[k]
      ensures Placed(n', depth, k)
    {
      assert Placed(n, depth, k);
      var m := LeafAt(n, k).mask;
      if m > 6 * depth {
        var s :| BlockStart(k, m - 6 * depth) <= s <= k && n.leafvec[s];
        if s == key {
          assert StartWithin(n', key + 1, k);
          var z :| key + 1 <= z <= k && n'.leafvec[z];
        } else {
          assert n'.leafvec[s];
        }
      }
    }
  }

  lemma ParentIn(view: map<Path, Internal>, q: Path, k: nat)
    requires TrieWf(view) && q + [k] in view
    ensures q in view
  {
    assert NodeOk(view, q + [k]);
    assert (q + [k])[..|q|] == q;
  }

  lemma ExpandedWf(view: map<Path, Internal>, view': map<Path, Internal>, p: Path, key: nat)
    requires TrieWf(view) && Expanded(view, view', p, key)
    ensures TrieWf(view')
  {
    assert NodeOk(view, p);
    forall q | q in view'
      ensures NodeOk(view', q)
    {
      if q == p + [key] {
        assert Placed(view[p], |p|, key);
        FreshWf(view'[q], LeafAt(view[p], key), |q|);
        forall k: nat | k < 64
          ensures q + [k] !in view'
        {
          if q + [k] in view {
            ParentIn(view, q, k);
          }
          assert |q + [k]| != |q|;
        }
        assert q[..|q| - 1] == p;
      } else {
        assert NodeOk(view, q);
        forall k: nat | k < 64
          ensures view'[q].vector[k] <==> q + [k] in view'
        {
          assert q + [k] == p + [key] <==> q == p && k == key by {
            if q + [k] == p + [key] {
              assert (q + [k])[..|q|] == q && (p + [key])[..|p|] == p;
              assert (q + [k])[|q|] == k && (p + [key])[|p|] == key;
            }
          }
        }
        if q == p {
          RoomStaysPlaced(view[p], view'[p], key, |p|);
        }
      }
    }
  }

  /** One node of a lookup. */
  lemma FindStep(view: map<Path, Internal>, x: seq<nat>, j: nat)
    requires TrieWf(view) && KeyPath(x) && j <= 5 && x[..j] in view
    ensures NodeOk(view, x[..j])
    ensures view[x[..j]].vector[x[j]] ==> j < 5 && x[..j + 1] in view && Find(view, x, j) == Find(view, x, j + 1)
    ensures !view[x[..j]].vector[x[j]] ==> x[..j + 1] !in view && Find(view, x, j) == LeafAt(view[x[..j]], x[j])
  {
    assert NodeOk(view, x[..j]);
    assert x[..j] + [x[j]] == x[..j + 1];
    assert x[..j + 1] in view ==> NodeOk(view, x[..j + 1]);
  }

  /** In the slot that was opened the lookup goes on to the new node, and finds the old leaf there. */
  lemma ExpandedSlot(view: map<Path, Internal>, view': map<Path, Internal>, p: Path, key: nat, x: seq<nat>, j: nat)
    requires TrieWf(view) && TrieWf(view') && Expanded(view, view', p, key)
    requires KeyPath(x) && j <= 5 && x[..j] == p && x[j] == key
    ensures Find(view', x, j) == Find(view, x, j)
  {
    FindStep(view, x, j);
    FindStep(view', x, j);
    assert x[..j] + [x[j]] == x[..j + 1];
    FindStep(view', x, j + 1);
    assert Placed(view[p], |p|, key);
    FreshWf(view'[x[..j + 1]], LeafAt(view[p], key), |p| + 1);
  }

  /** Expanding a leaf changes no lookup. */
  lemma {:induction false} ExpandedFind(view: map<Path, Internal>, view': map<Path, Internal>, p: Path, key: nat,
                                        x: seq<nat>, j: nat)
    requires TrieWf(view) && TrieWf(view') && Expanded(view, view', p, key)
    requires KeyPath(x) && j <= 5 && x[..j] in view
    ensures Find(view', x, j) == Find(view, x, j)
    decreases 6 - j
  {
    FindStep(view, x, j);
    FindStep(view', x, j);
    if x[..j] == p && x[j] == key {
      ExpandedSlot(view, view', p, key, x, j);
    } else if view[x[..j]].vector[x[j]] {
      ExpandedFind(view, view', p, key, x, j + 1);
    }
  }

  // ----- Overwriting a range ---------------------------------------------

  /** Every key of an aligned range has the start of the range as its block start. */
  lemma BlockStartIs(lo: nat, w: nat, k: nat)
    requires 1 <= w <= 6 && Clear(lo, 6 - w) && lo <= k < lo + Pow2(6 - w) <= 64
    ensures BlockStart(k, w) == lo
  {
    KeyRange(lo, k, w);
    ClearFloor(lo, 6 - w, lo, 6 - w);
    DblShr(lo, 6 - w);
  }

  lemma PaintedSlotPlaced(n: Internal, n': Internal, lo: nat, w: nat, put: Leaf, depth: nat, k: nat)
    requires Wf(n) && 1 <= w <= 6 && Clear(lo, 6 - w) && lo + Pow2(6 - w) <= 64 && put.mask == 6 * depth + w
    requires Painted(n, n', lo, lo + Pow2(6 - w), put) && lo <= k < lo + Pow2(6 - w) && !n'.vector[k]
    ensures Placed(n', depth, k)
  {
    BlockStartIs(lo, w, k);
    assert StartWithin(n', lo, k);
  }

  lemma OtherSlotPlaced(n: Internal, n': Internal, lo: nat, hi: nat, put: Leaf, depth: nat, k: nat)
    requires Wf(n) && AllPlaced(n, depth) && hi <= 64 && Painted(n, n', lo, hi, put)
    requires k < 64 && !(lo <= k < hi) && !n'.vector[k]
    ensures Placed(n', depth, k)
  {
    assert Placed(n, depth, k);
    var m := LeafAt(n, k).mask;
    if m > 6 * depth {
      var s :| BlockStart(k, m - 6 * depth) <= s <= k && n.leafvec[s];
      assert n'.leafvec[s];
    }
  }

  lemma PaintedStaysPlaced(n: Internal, n': Internal, lo: nat, w: nat, put: Leaf, depth: nat)
    requires Wf(n) && AllPlaced(n, depth) && 1 <= w <= 6 && Clear(lo, 6 - w) && lo + Pow2(6 - w) <= 64
    requires put.mask == 6 * depth + w && Painted(n, n', lo, lo + Pow2(6 - w), put)
    ensures AllPlaced(n', depth)
  {
    forall k | 0 <= k < 64 && !n'.vector[k]
      ensures Placed(n', depth, k)
    {
      if lo <= k < lo + Pow2(6 - w) {
        PaintedSlotPlaced(n, n', lo, w, put, depth, k);
      } else {
        OtherSlotPlaced(n, n', lo, lo + Pow2(6 - w), put, depth, k);
      }
    }
  }

  ghost predicate Overwritten(view: map<Path, Internal>, view': map<Path, Internal>, p: Path, lo: nat, hi: nat,
                              put: Leaf)
    requires TrieWf(view)
  {
    && p in view && NodeOk(view, p) && view'.Keys == view.Keys
    && (forall q :: q in view && q != p ==> view'[q] == view[q])
    && Painted(view[p], view'[p], lo, hi, put) && AllPlaced(view'[p], |p|) && Aligned(view'[p], |p|)
  }

  lemma OverwrittenWf(view: map<Path, Internal>, view': map<Path, Internal>, p: Path, lo: nat, hi: nat, put: Leaf)
    requires TrieWf(view) && Overwritten(view, view', p, lo, hi, put)
    ensures TrieWf(view')
  {
    forall q | q in view'
      ensures NodeOk(view', q)
    {
      assert NodeOk(view, q);
    }
  }

  /** Overwriting a range changes exactly the lookups that end in one of its leaf slots. */
  lemma {:induction false} OverwrittenFind(view: map<Path, Internal>, view': map<Path, Internal>, p: Path, lo: nat,
                                           hi: nat, put: Leaf, x: seq<nat>, j: nat)
    requires TrieWf(view) && TrieWf(view') && Overwritten(view, view', p, lo, hi, put)
    requires KeyPath(x) && j <= 5 && x[..j] in view
    ensures Find(view', x, j) ==
            if j <= |p| <= 5 && x[..|p|] == p && lo <= x[|p|] < hi && x[..|p| + 1] !in view then put
            else Find(view, x, j)
    decreases 6 - j
  {
    FindStep(view, x, j);
    FindStep(view', x, j);
    if view[x[..j]].vector[x[j]] {
      OverwrittenFind(view, view', p, lo, hi, put, x, j + 1);
    } else if j < |p| && x[..|p|] == p {
      assert p[..j + 1] == x[..j + 1];
      PrefixIn(view, p, j + 1);
    }
  }

  lemma {:induction false} PrefixIn(view: map<Path, Internal>, p: Path, j: nat)
    requires TrieWf(view) && p in view && j <= |p|
    ensures p[..j] in view
    decreases |p|
  {
    assert NodeOk(view, p);
    if j < |p| {
      PrefixIn(view, p[..|p| - 1], j);
      assert p[..|p| - 1][..j] == p[..j];
    } else {
      assert p[..j] == p;
    }
  }

  lemma OverwrittenLookup(view: map<Path, Internal>, view': map<Path, Internal>, p: Path, lo: nat, hi: nat, put: Leaf,
                          x: seq<nat>)
    requires TrieWf(view) && TrieWf(view') && Overwritten(view, view', p, lo, hi, put) && KeyPath(x) && |p| <= 5
    ensures Lookup(view', x) ==
            if x[..|p|] == p && lo <= x[|p|] < hi && x[..|p| + 1] !in view then put else Lookup(view, x)
  {
    assert x[..0] == [];
    OverwrittenFind(view, view', p, lo, hi, put, x, 0);
  }

  // ----- Repainting, with or without a longer prefix --------------------------

  lemma Clear16(k: nat, n: nat)
    requires 4 <= n && Clear(k, n)
    ensures k % 16 == 0
  {
    var a := k / 2;
    var b := a / 2;
    var c := b / 2;
    assert Clear(a, n - 1);
    assert Clear(b, n - 2);
    assert Clear(c, n - 3);
    assert k == 2 * a && a == 2 * b && b == 2 * c && c == 2 * (c / 2);
  }

  lemma RangeOfSixteens(lo: nat, w: nat)
    requires 1 <= w <= 2 && Clear(lo, 6 - w)
    ensures lo % 16 == 0 && (lo + Pow2(6 - w)) % 16 == 0
  {
    Clear16(lo, 6 - w);
    SixteensIn(6 - w);
    SumOfSixteens(lo, Pow2(6 - w));
  }

  lemma SumOfSixteens(a: nat, b: nat)
    requires a % 16 == 0 && b % 16 == 0
    ensures (a + b) % 16 == 0
  {
  }

  lemma SixteensIn(n: nat)
    requires 4 <= n <= 5
    ensures Pow2(n) % 16 == 0
  {
    Pow2Values();
  }

  /** At the deepest level there are no children, so a repainting starts runs only at the ends of its range. */
  lemma RepaintedStaysAligned(view: map<Path, Internal>, p: Path, lo: nat, w: nat, put: Leaf)
    requires TrieWf(view) && p in view && NodeOk(view, p) && 1 <= w <= 6 && Clear(lo, 6 - w) && lo + Pow2(6 - w) <= 64
    requires 6 * |p| + w <= 32
    ensures Aligned(Repainted(view[p], lo, lo + Pow2(6 - w), put), |p|)
  {
    if |p| == 5 {
      forall k | 0 <= k < 64
        ensures !view[p].vector[k]
      {
        assert p + [k] in view ==> NodeOk(view, p + [k]);
      }
      RangeOfSixteens(lo, w);
      var n, hi := view[p], lo + Pow2(6 - w);
      forall k | 0 <= k < 64 && StartAt(n, lo, hi, k)
        ensures k % 16 == 0
      {
        assert k > lo ==> !n.vector[lo];
        assert k > hi ==> !n.vector[hi];
      }
    }
  }

  lemma RepaintedShaped(view: map<Path, Internal>, p: Path, lo: nat, hi: nat, put: Leaf)
    requires TrieWf(view) && p in view && NodeOk(view, p) && hi <= 64
    ensures Shaped(view[p := Repainted(view[p], lo, hi, put)])
  {
    var view' := view[p := Repainted(view[p], lo, hi, put)];
    forall q | q in view'
      ensures NodeShaped(view', q)
    {
      assert NodeOk(view, q);
    }
  }

  /** The node after a repainting that drops nothing. */
  lemma RepaintedPlaced(n: Internal, n': Internal, depth: nat, lo: nat, hi: nat, w: nat, put: Leaf)
    requires Wf(n) && AllPlaced(n, depth) && 1 <= w <= 6 && Clear(lo, 6 - w) && hi == lo + Pow2(6 - w) <= 64
    requires put.mask == 6 * depth + w && NoLonger(n, lo, hi, put.mask) && n' == Repainted(n, lo, hi, put)
    ensures Painted(n, n', lo, hi, put) && AllPlaced(n', depth)
  {
    RepaintedPaints(n, lo, hi, put);
    PaintedStaysPlaced(n, n', lo, w, put, depth);
  }

  lemma StoreOverwrites(view: map<Path, Internal>, p: Path, n: Internal, lo: nat, hi: nat, put: Leaf)
    requires TrieWf(view) && p in view && NodeOk(view, p)
    requires Painted(view[p], n, lo, hi, put) && AllPlaced(n, |p|) && Aligned(n, |p|)
    ensures Overwritten(view, view[p := n], p, lo, hi, put)
  {
  }

  /** Without a longer prefix in the range, repainting overwrites it. */
  lemma RepaintedOverwrites(view: map<Path, Internal>, p: Path, n: Internal, lo: nat, hi: nat, w: nat, put: Leaf)
    requires TrieWf(view) && p in view && NodeOk(view, p) && 1 <= w <= 6 && Clear(lo, 6 - w)
    requires hi == lo + Pow2(6 - w) <= 64 && put.mask == 6 * |p| + w <= 32
    requires NoLonger(view[p], lo, hi, put.mask) && n == Repainted(view[p], lo, hi, put)
    ensures Overwritten(view, view[p := n], p, lo, hi, put)
  {
    RepaintedPlaced(view[p], n, |p|, lo, hi, w, put);
    RepaintedStaysAligned(view, p, lo, w, put);
    StoreOverwrites(view, p, n, lo, hi, put);
  }

  /** Some slot that lookups reach is answered from outside the leaf array. */
  ghost predicate Unreadable(view: map<Path, Internal>, p: Path, k: nat) {
    p in view && |p| <= 5 && k < 64 && !view[p].vector[k] && EntryAt(view[p], k) == None && (|p| == 5 ==> k % 16 == 0)
  }

  /** With a longer prefix in the range, the slot where the last run starts is such a slot. */
  lemma RepaintedUnreadable(view: map<Path, Internal>, p: Path, lo: nat, w: nat, put: Leaf) returns (k: nat)
    requires TrieWf(view) && p in view && NodeOk(view, p) && 1 <= w <= 6 && Clear(lo, 6 - w) && lo + Pow2(6 - w) <= 64
    requires put.mask == 6 * |p| + w <= 32 && !NoLonger(view[p], lo, lo + Pow2(6 - w), put.mask)
    ensures Unreadable(view[p := Repainted(view[p], lo, lo + Pow2(6 - w), put)], p, k)
  {
    var n := Repainted(view[p], lo, lo + Pow2(6 - w), put);
    RepaintedIsShort(view[p], lo, lo + Pow2(6 - w), put);
    RepaintedStaysAligned(view, p, lo, w, put);
    k := LastRunStart(n.leafvec, 64);
    assert StartAt(view[p], lo, lo + Pow2(6 - w), k);
  }
}
