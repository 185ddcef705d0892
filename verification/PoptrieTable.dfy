/** The poptrie itself: insertion and lookup over the allocated nodes and the shortcut table. */
module PoptrieTable {
  import opened Options
  import opened Addresses
  import opened PoptrieNode
  import opened PoptrieTree
  import opened PoptrieMemory

  // ----- Space accounting ------------------------------------------------

  ghost function LeafTotal(view: map<Path, Internal>): int {
    if view == map[] then 0
    else
      var p :| p in view;
      |view[p].leaf| + LeafTotal(view - {p})
  }

  lemma {:induction false} LeafTotalRemove(view: map<Path, Internal>, p: Path)
    requires p in view
    ensures LeafTotal(view) == |view[p].leaf| + LeafTotal(view - {p})
    decreases |view|
  {
    var q :| q in view && LeafTotal(view) == |view[q].leaf| + LeafTotal(view - {q});
    if q != p {
      LeafTotalRemove(view - {q}, p);
      LeafTotalRemove(view - {p}, q);
      assert view - {q} - {p} == view - {p} - {q};
    }
  }

  lemma LeafTotalUpdate(view: map<Path, Internal>, p: Path, n: Internal)
    ensures LeafTotal(view[p := n]) == LeafTotal(view) + |n.leaf| - if p in view then |view[p].leaf| else 0
  {
    LeafTotalRemove(view[p := n], p);
    if p in view {
      LeafTotalRemove(view, p);
      assert view[p := n] - {p} == view - {p};
    } else {
      assert view[p := n] - {p} == view;
    }
  }

  // ----- Paths of a prefix -----------------------------------------------

  /** The nodes along the first `n` keys of an address. */
  ghost function SpineTo(p: Address, n: nat): set<Path>
    requires n <= 6
  {
    set j | 0 <= j <= n :: KeysOf(p)[..j]
  }

  // ----- Shortcut table --------------------------------------------------

  lemma DirectAfterGrowth(direct: seq<Option<Ptr>>, direct': seq<Option<Ptr>>, at: map<Path, Ptr>, p: Path, key: nat,
                          next: nat, vector: Bits)
    requires DirectOk(direct, at) && p in at && key < 64 && p + [key] !in at && |direct'| == DIRECT_SIZE
    requires forall k: nat :: k < 64 ==> (vector[k] <==> p + [k] in at || k == key)
    requires |p| != 1 ==> direct' == direct
    requires |p| == 1 ==> p[0] < 64 && forall h :: 0 <= h < DIRECT_SIZE ==>
               direct'[h] == if p[0] * 64 <= h < p[0] * 64 + 64 && vector[h - p[0] * 64]
                             then Some(Ptr(next, Ones(vector, h - p[0] * 64))) else direct[h]
    ensures DirectOk(direct', MovedAt(at, p, key, next, vector))
  {
    var at' := MovedAt(at, p, key, next, vector);
    forall a: nat, b: nat | a < 64 && b < 64
      ensures DirectEntry(direct', at', a, b)
    {
      assert DirectEntry(direct, at, a, b);
      var q := [a, b];
      assert q[..1] == [a];
      if |p| == 1 {
        assert p == [p[0]];
        if a == p[0] {
          assert p + [b] == q;
          assert q == p + [key] <==> b == key by {
            assert (p + [key])[1] == key;
          }
        } else {
          assert (p + [key])[0] == p[0];
        }
      } else {
        assert |p + [key]| != 2;
      }
    }
  }

  lemma GrowthKeepsLayout(heap: Heap, next: nat, at: map<Path, Ptr>, view: map<Path, Internal>,
                          direct: seq<Option<Ptr>>,
                          p: Path, key: nat, n: Internal, newNode: Internal, heap': Heap, direct': seq<Option<Ptr>>)
    requires Mem(heap, next, at, view) && DirectOk(direct, at) && TrieWf(view) && p in at
    requires NewChild(view, p, key, n, newNode, next) && GrownHeap(heap, next, at, view, p, key, n, newNode, heap')
    requires |direct'| == DIRECT_SIZE && (|p| != 1 ==> direct' == direct)
    requires |p| == 1 ==> p[0] < 64 && forall h :: 0 <= h < DIRECT_SIZE ==>
               direct'[h] == if p[0] * 64 <= h < p[0] * 64 + 64 && n.vector[h - p[0] * 64]
                             then Some(Ptr(next, Ones(n.vector, h - p[0] * 64))) else direct[h]
    ensures var at', view' := MovedAt(at, p, key, next, n.vector), GrownView(view, p, key, n, newNode);
            Mem(heap', next + 1, at', view') && DirectOk(direct', at')
  {
    GrownMem(heap, next, at, view, p, key, n, newNode, heap');
    assert NodeOk(view, p);
    DirectAfterGrowth(direct, direct', at, p, key, next, n.vector);
  }

  lemma GrowthExpands(view: map<Path, Internal>, p: Path, key: nat, n: Internal, newNode: Internal, next: nat)
    requires TrieWf(view) && NewChild(view, p, key, n, newNode, next) && |p| <= 4 && NodeOk(view, p)
    requires MadeRoom(view[p], n, key) && StartsKept(view[p], n, key) && IsFresh(newNode, LeafAt(view[p], key))
    ensures Expanded(view, GrownView(view, p, key, n, newNode), p, key)
  {
    assert p != p + [key] by {
      assert |p + [key]| == |p| + 1;
    }
  }

  lemma GrowthCounts(view: map<Path, Internal>, p: Path, key: nat, n: Internal, newNode: Internal)
    requires p in view && p + [key] !in view
    ensures LeafTotal(GrownView(view, p, key, n, newNode)) ==
            LeafTotal(view) + |n.leaf| - |view[p].leaf| + |newNode.leaf|
    ensures |GrownView(view, p, key, n, newNode)| == |view| + 1
  {
    LeafTotalUpdate(view, p, n);
    LeafTotalUpdate(view[p := n], p + [key], newNode);
    assert view[p := n].Keys == view.Keys;
    assert |view[p := n]| == |view[p := n].Keys| == |view|;
    assert GrownView(view, p, key, n, newNode).Keys == view.Keys + {p + [key]};
    assert |GrownView(view, p, key, n, newNode)| == |GrownView(view, p, key, n, newNode).Keys|;
  }

  /** The node without the slot, and the node the slot's leaf moves into. */
  method SplitSlot(node: Internal, key: nat, runs: nat, lbit: bool, newBlock: nat)
    returns (n: Internal, newNode: Internal, dropped: bool)
    requires Wf(node) && key < 64 && !node.vector[key]
    requires runs == Ones(node.leafvec, key + 1) && lbit == node.leafvec[key]
    ensures MadeRoom(node, n, key) && StartsKept(node, n, key) && n.child == Some(newBlock)
    ensures IsFresh(newNode, LeafAt(node, key)) && newNode.child == None
    ensures |n.leaf| == |node.leaf| - if dropped then 1 else 0
  {
    SlotExists(node, key);
    var leaf := node.leaf[runs - 1];
    n, dropped := MakeRoom(node, key, runs, lbit);
    n := n.(child := Some(newBlock));
    newNode := Internal(seq(64, i => i == 0), seq(64, i => false), None, [leaf]);
  }

  lemma SplitGrows(view: map<Path, Internal>, p: Path, key: nat, n: Internal, newNode: Internal, next: nat)
    requires TrieWf(view) && p in view && |p| <= 4 && key < 64 && NodeOk(view, p) && !view[p].vector[key]
    requires MadeRoom(view[p], n, key) && StartsKept(view[p], n, key) && n.child == Some(next)
    requires IsFresh(newNode, LeafAt(view[p], key)) && newNode.child == None
    ensures NewChild(view, p, key, n, newNode, next)
    ensures Expanded(view, GrownView(view, p, key, n, newNode), p, key)
    ensures LeafTotal(GrownView(view, p, key, n, newNode)) == LeafTotal(view) + |n.leaf| - |view[p].leaf| + 1
    ensures |GrownView(view, p, key, n, newNode)| == |view| + 1
  {
    GrowthExpands(view, p, key, n, newNode, next);
    GrowthCounts(view, p, key, n, newNode);
  }

  ghost predicate SameLookups(view: map<Path, Internal>, view': map<Path, Internal>)
    requires TrieWf(view) && TrieWf(view')
  {
    forall y :: KeyPath(y) ==> Lookup(view', y) == Lookup(view, y)
  }

  lemma SameLookupsTransitive(u: map<Path, Internal>, v: map<Path, Internal>, w: map<Path, Internal>)
    requires TrieWf(u) && TrieWf(v) && TrieWf(w) && SameLookups(u, v) && SameLookups(v, w)
    ensures SameLookups(u, w)
  {
  }

  /** Making room for a longer prefix preserves the meaning of the whole table. */
  lemma ExpandedSame(view: map<Path, Internal>, view': map<Path, Internal>, p: Path, key: nat)
    requires TrieWf(view) && Expanded(view, view', p, key)
    ensures TrieWf(view') && SameLookups(view, view')
  {
    ExpandedWf(view, view', p, key);
    forall y | KeyPath(y)
      ensures Lookup(view', y) == Lookup(view, y)
    {
      assert y[..0] == [];
      ExpandedFind(view, view', p, key, y, 0);
    }
  }

  /** What opening a slot means for the whole table. */
  lemma SplitMeaning(view: map<Path, Internal>, p: Path, key: nat, n: Internal, newNode: Internal, next: nat)
    requires TrieWf(view) && p in view && |p| <= 4 && key < 64 && NodeOk(view, p) && !view[p].vector[key]
    requires MadeRoom(view[p], n, key) && StartsKept(view[p], n, key) && n.child == Some(next)
    requires IsFresh(newNode, LeafAt(view[p], key)) && newNode.child == None
    ensures NewChild(view, p, key, n, newNode, next)
    ensures var view' := GrownView(view, p, key, n, newNode);
            && TrieWf(view') && SameLookups(view, view') && view'.Keys == view.Keys + {p + [key]}
            && p in view' && Ones(view'[p].vector, key) == Ones(view[p].vector, key) && OneRun(view'[p + [key]])
            && LeafTotal(view') == LeafTotal(view) + |n.leaf| - |view[p].leaf| + 1 && |view'| == |view| + 1
  {
    SplitGrows(view, p, key, n, newNode, next);
    ExpandedSame(view, GrownView(view, p, key, n, newNode), p, key);
    OnesAfterSet(view[p].vector, key, key);
  }

  /** A node with a single run of leaves. */
  ghost predicate OneRun(n: Internal) {
    n.leafvec == seq(64, i => i == 0)
  }

  /** The node at `p` is as it was, and so is all else; or it is new. */
  ghost predicate SameOrNew(view: map<Path, Internal>, view': map<Path, Internal>, p: Path) {
    p in view' && if p in view then view' == view else OneRun(view'[p])
  }

  lemma NextSameOrNew(view: map<Path, Internal>, mid: map<Path, Internal>, view': map<Path, Internal>, net: Address,
                      n: nat)
    requires TrieWf(view) && n <= 4 && mid.Keys == view.Keys + SpineTo(net, n)
    requires SameOrNew(view, mid, KeysOf(net)[..n]) && SameOrNew(mid, view', KeysOf(net)[..n + 1])
    ensures SameOrNew(view, view', KeysOf(net)[..n + 1])
  {
    var q: Path := KeysOf(net)[..n + 1];
    assert q[..n] == KeysOf(net)[..n];
    if q in view {
      assert NodeOk(view, q);
    } else {
      assert q !in SpineTo(net, n);
    }
  }

  /** The nodes of the first `n` keys have been opened, and nothing else has changed. */
  ghost predicate Descended(view: map<Path, Internal>, view': map<Path, Internal>, net: Address, n: nat)
    requires n <= 6
  {
    && TrieWf(view) && TrieWf(view') && view'.Keys == view.Keys + SpineTo(net, n) && SameLookups(view, view')
    && SameOrNew(view, view', KeysOf(net)[..n])
  }

  lemma OneDeeper(view: map<Path, Internal>, mid: map<Path, Internal>, view': map<Path, Internal>, net: Address, n: nat)
    requires n <= 4 && Descended(view, mid, net, n) && TrieWf(view') && SameLookups(mid, view')
    requires view'.Keys == mid.Keys + {KeysOf(net)[..n + 1]} && SameOrNew(mid, view', KeysOf(net)[..n + 1])
    ensures Descended(view, view', net, n + 1)
  {
    SameLookupsTransitive(view, mid, view');
    NextSameOrNew(view, mid, view', net, n);
    SpineGrows(net, n);
  }

  lemma ChildPointer(heap: Heap, next: nat, at: map<Path, Ptr>, view: map<Path, Internal>, p: Path, key: nat)
    requires Mem(heap, next, at, view) && p in at && key < 64 && p + [key] in at
    ensures Allocated(heap, at[p]) && Deref(heap, at[p]) == view[p] && view[p].child.Some?
    ensures at[p + [key]] == Ptr(view[p].child.value, Ones(view[p].vector, key))
  {
    assert NodeAt(heap, at, view, p);
  }

  lemma {:induction false} SpineIn(view: map<Path, Internal>, net: Address, n: nat)
    requires TrieWf(view) && n <= 5 && KeysOf(net)[..n] in view
    ensures view.Keys == view.Keys + SpineTo(net, n)
  {
    forall j | 0 <= j <= n
      ensures KeysOf(net)[..j] in view
    {
      PrefixIn(view, KeysOf(net)[..n], j);
      assert KeysOf(net)[..n][..j] == KeysOf(net)[..j];
    }
  }

  lemma SpineGrows(net: Address, n: nat)
    requires n <= 5
    ensures SpineTo(net, n + 1) == SpineTo(net, n) + {KeysOf(net)[..n + 1]}
  {
  }

  lemma StoreCounts(view: map<Path, Internal>, p: Path, n: Internal)
    requires p in view
    ensures view[p := n].Keys == view.Keys && |view[p := n]| == |view|
    ensures LeafTotal(view[p := n]) == LeafTotal(view) + |n.leaf| - |view[p].leaf|
  {
    LeafTotalUpdate(view, p, n);
    assert view[p := n].Keys == view.Keys;
    assert |view[p := n]| == |view[p := n].Keys| == |view|;
  }

  // ----- What an insertion means -----------------------------------------

  /** No longer prefix holds a leaf under the prefix, at the prefix's own level. */
  ghost predicate Fits(view: map<Path, Internal>, dest: Address, mask: nat)
    requires TrieWf(view) && 1 <= mask <= 32
  {
    forall y :: KeyPath(y) && Under(dest, mask, y) && y[..Level(mask) + 1] !in view ==> Lookup(view, y).mask <= mask
  }

  /** Exactly the keys under the prefix that end at its level get the new leaf. */
  ghost predicate Updates(view: map<Path, Internal>, view': map<Path, Internal>, dest: Address, mask: nat, leaf: Leaf)
    requires TrieWf(view) && TrieWf(view') && 1 <= mask <= 32
  {
    forall y :: KeyPath(y) ==>
      Lookup(view', y) == if Under(dest, mask, y) && y[..Level(mask) + 1] !in view then leaf else Lookup(view, y)
  }

  /** The walk along `y` ends in the node at its first `l` keys. */
  lemma EndsAt(view: map<Path, Internal>, y: seq<nat>, l: nat)
    requires TrieWf(view) && KeyPath(y) && l <= 5 && y[..l] in view && y[..l + 1] !in view
    ensures NodeOk(view, y[..l]) && !view[y[..l]].vector[y[l]]
    ensures Lookup(view, y) == LeafAt(view[y[..l]], y[l])
  {
    assert NodeOk(view, y[..l]);
    FindPasses(view, y, l);
    assert y[..l] + [y[l]] == y[..l + 1];
  }

  lemma OffSpine(view: map<Path, Internal>, mid: map<Path, Internal>, net: Address, l: nat, q: Path)
    requires l <= 5 && mid.Keys == view.Keys + SpineTo(net, l) && |q| == l + 1
    ensures q in mid <==> q in view
  {
  }

  /** The node an insertion ends in, and the slots of the prefix there. */
  lemma EndNode(view: map<Path, Internal>, mid: map<Path, Internal>, net: Address, mask: nat)
    requires TrieWf(mid) && 1 <= mask <= 32 && Clear(net, 32 - mask)
    requires mid.Keys == view.Keys + SpineTo(net, Level(mask))
    ensures KeysOf(net)[..Level(mask)] in mid && NodeOk(mid, KeysOf(net)[..Level(mask)])
    ensures var l := Level(mask);
            var lo := KeyAt(net, l);
            Clear(lo, 6 * l + 6 - mask) && lo + Pow2(6 * l + 6 - mask) <= 64
  {
    var p := KeysOf(net)[..Level(mask)];
    assert p in SpineTo(net, Level(mask));
    assert NodeOk(mid, p);
    UnderIsRange(net, mask, KeysOf(net));
  }

  /** The leaves the final loops look at are the leaves found under the prefix. */
  lemma FitsInNode(view: map<Path, Internal>, mid: map<Path, Internal>, net: Address, mask: nat)
    requires TrieWf(view) && TrieWf(mid) && 1 <= mask <= 32 && Clear(net, 32 - mask)
    requires mid.Keys == view.Keys + SpineTo(net, Level(mask)) && SameLookups(view, mid)
    ensures KeysOf(net)[..Level(mask)] in mid && NodeOk(mid, KeysOf(net)[..Level(mask)])
    ensures var l := Level(mask);
            var lo := KeyAt(net, l);
            && lo + Pow2(6 * l + 6 - mask) <= 64
            && (Fits(view, net, mask) <==> NoLonger(mid[KeysOf(net)[..l]], lo, lo + Pow2(6 * l + 6 - mask), mask))
  {
    var l := Level(mask);
    var p := KeysOf(net)[..l];
    var lo, hi := KeyAt(net, l), KeyAt(net, l) + Pow2(6 * l + 6 - mask);
    EndNode(view, mid, net, mask);
    if NoLonger(mid[p], lo, hi, mask) {
      forall y | KeyPath(y) && Under(net, mask, y) && y[..l + 1] !in view
        ensures Lookup(view, y).mask <= mask
      {
        UnderIsRange(net, mask, y);
        OffSpine(view, mid, net, l, y[..l + 1]);
        EndsAt(mid, y, l);
      }
    }
    if Fits(view, net, mask) {
      forall k | lo <= k < hi && !mid[p].vector[k]
        ensures LeafAt(mid[p], k).mask <= mask
      {
        SlotFits(view, mid, net, mask, k);
      }
    }
  }

  lemma SlotFits(view: map<Path, Internal>, mid: map<Path, Internal>, net: Address, mask: nat, k: nat)
    requires TrieWf(view) && TrieWf(mid) && 1 <= mask <= 32 && Clear(net, 32 - mask)
    requires mid.Keys == view.Keys + SpineTo(net, Level(mask)) && SameLookups(view, mid) && Fits(view, net, mask)
    requires KeysOf(net)[..Level(mask)] in mid && NodeOk(mid, KeysOf(net)[..Level(mask)])
    requires KeyAt(net, Level(mask)) <= k < KeyAt(net, Level(mask)) + Pow2(6 * Level(mask) + 6 - mask) && k < 64
    requires !mid[KeysOf(net)[..Level(mask)]].vector[k]
    ensures LeafAt(mid[KeysOf(net)[..Level(mask)]], k).mask <= mask
  {
    var l := Level(mask);
    var p := KeysOf(net)[..l];
    var y := p + [k] + seq(5 - l, i => 0);
    assert y[..l] == p && y[l] == k && y[..l + 1] == p + [k];
    assert KeyPath(y) by {
      forall j | 0 <= j < 6
        ensures y[j] < 64
      {
        if j < l {
          assert y[j] == KeyAt(net, j);
        }
      }
    }
    UnderIsRange(net, mask, y);
    OffSpine(view, mid, net, l, y[..l + 1]);
    EndsAt(mid, y, l);
  }

  /** Exactly the lookups that end in the slots `lo` to `hi` of node `p` find the new leaf. */
  ghost predicate Repoints(view: map<Path, Internal>, view': map<Path, Internal>, p: Path, lo: nat, hi: nat, put: Leaf)
    requires TrieWf(view) && TrieWf(view') && |p| <= 5
  {
    forall y :: KeyPath(y) ==>
      Lookup(view', y) ==
      if y[..|p|] == p && lo <= y[|p|] < hi && y[..|p| + 1] !in view then put else Lookup(view, y)
  }

  lemma OverwrittenRepoints(view: map<Path, Internal>, view': map<Path, Internal>, p: Path, lo: nat, hi: nat, put: Leaf)
    requires TrieWf(view) && Overwritten(view, view', p, lo, hi, put) && |p| <= 5
    ensures TrieWf(view') && Repoints(view, view', p, lo, hi, put)
  {
    OverwrittenWf(view, view', p, lo, hi, put);
    forall y | KeyPath(y)
      ensures Lookup(view', y) ==
              if y[..|p|] == p && lo <= y[|p|] < hi && y[..|p| + 1] !in view then put else Lookup(view, y)
    {
      OverwrittenLookup(view, view', p, lo, hi, put, y);
    }
  }

  /** The slots of a node that the prefix covers. */
  ghost predicate SlotsOf(net: Address, mask: nat, p: Path, lo: nat, hi: nat)
    requires 1 <= mask <= 32
  {
    var l := Level(mask);
    p == KeysOf(net)[..l] && lo == KeyAt(net, l) && hi == lo + Pow2(6 * l + 6 - mask)
  }

  lemma SlotsAreUnder(net: Address, mask: nat, p: Path, lo: nat, hi: nat, y: Path)
    requires 1 <= mask <= 32 && Clear(net, 32 - mask) && SlotsOf(net, mask, p, lo, hi) && KeyPath(y)
    ensures |p| == Level(mask) <= 5 && (Under(net, mask, y) <==> y[..|p|] == p && lo <= y[|p|] < hi)
  {
    UnderIsRange(net, mask, y);
  }

  /** Slots of a node are addresses under a prefix. */
  lemma RepointsUpdates(view: map<Path, Internal>, mid: map<Path, Internal>, view': map<Path, Internal>, net: Address,
                        mask: nat, leaf: Leaf, p: Path, lo: nat, hi: nat)
    requires TrieWf(view) && TrieWf(mid) && TrieWf(view') && 1 <= mask <= 32 && Clear(net, 32 - mask)
    requires mid.Keys == view.Keys + SpineTo(net, Level(mask)) && SameLookups(view, mid)
    requires SlotsOf(net, mask, p, lo, hi) && |p| <= 5 && Repoints(mid, view', p, lo, hi, leaf)
    ensures Updates(view, view', net, mask, leaf)
  {
    forall y | KeyPath(y)
      ensures Lookup(view', y) ==
              if Under(net, mask, y) && y[..Level(mask) + 1] !in view then leaf else Lookup(view, y)
    {
      SlotsAreUnder(net, mask, p, lo, hi, y);
      OffSpine(view, mid, net, Level(mask), y[..Level(mask) + 1]);
    }
  }

  /** Nodes for the prefix have been opened, and then the slots of the prefix in the last one repainted. */
  ghost predicate RepaintedFrom(view: map<Path, Internal>, mid: map<Path, Internal>, view': map<Path, Internal>,
                                net: Address, mask: nat, leaf: Leaf)
    requires TrieWf(view) && 1 <= mask <= 32
  {
    var l := Level(mask);
    var p, lo, hi := KeysOf(net)[..l], KeyAt(net, l), KeyAt(net, l) + Pow2(6 * l + 6 - mask);
    && TrieWf(mid) && mid.Keys == view.Keys + SpineTo(net, l) && SameLookups(view, mid)
    && SameOrNew(view, mid, p) && NodeOk(mid, p) && hi <= 64
    && view' == mid[p := Repainted(mid[p], lo, hi, leaf)]
  }

  lemma PutShaped(view: map<Path, Internal>, mid: map<Path, Internal>, view': map<Path, Internal>, net: Address,
                  mask: nat, leaf: Leaf)
    requires TrieWf(view) && 1 <= mask <= 32 && RepaintedFrom(view, mid, view', net, mask, leaf)
    ensures Shaped(view') && view'.Keys == view.Keys + SpineTo(net, Level(mask))
  {
    var l := Level(mask);
    RepaintedShaped(mid, KeysOf(net)[..l], KeyAt(net, l), KeyAt(net, l) + Pow2(6 * l + 6 - mask), leaf);
    assert view'.Keys == mid.Keys;
  }

  lemma PutOverwrites(view: map<Path, Internal>, mid: map<Path, Internal>, view': map<Path, Internal>, net: Address,
                      mask: nat, leaf: Leaf, p: Path, lo: nat, hi: nat)
    requires TrieWf(view) && 1 <= mask <= 32 && Clear(net, 32 - mask) && leaf.mask == mask
               && SlotsOf(net, mask, p, lo, hi)
    requires RepaintedFrom(view, mid, view', net, mask, leaf) && Fits(view, net, mask)
    ensures Overwritten(mid, view', p, lo, hi, leaf)
  {
    EndNode(view, mid, net, mask);
    FitsInNode(view, mid, net, mask);
    RepaintedOverwrites(mid, p, view'[p], lo, hi, mask - 6 * Level(mask), leaf);
  }

  lemma PutUpdates(view: map<Path, Internal>, mid: map<Path, Internal>, view': map<Path, Internal>, net: Address,
                   mask: nat, leaf: Leaf)
    requires TrieWf(view) && 1 <= mask <= 32 && Clear(net, 32 - mask) && leaf.mask == mask
    requires RepaintedFrom(view, mid, view', net, mask, leaf) && Fits(view, net, mask)
    ensures TrieWf(view') && Updates(view, view', net, mask, leaf)
  {
    var l := Level(mask);
    var p, lo, hi := KeysOf(net)[..l], KeyAt(net, l), KeyAt(net, l) + Pow2(6 * l + 6 - mask);
    PutOverwrites(view, mid, view', net, mask, leaf, p, lo, hi);
    OverwrittenRepoints(mid, view', p, lo, hi, leaf);
    RepointsUpdates(view, mid, view', net, mask, leaf, p, lo, hi);
  }

  lemma PutUnreadable(view: map<Path, Internal>, mid: map<Path, Internal>, view': map<Path, Internal>, net: Address,
                      mask: nat, leaf: Leaf) returns (k: nat)
    requires TrieWf(view) && 1 <= mask <= 32 && Clear(net, 32 - mask) && leaf.mask == mask
    requires RepaintedFrom(view, mid, view', net, mask, leaf) && !Fits(view, net, mask)
    ensures Unreadable(view', KeysOf(net)[..Level(mask)], k)
  {
    var l := Level(mask);
    EndNode(view, mid, net, mask);
    FitsInNode(view, mid, net, mask);
    k := RepaintedUnreadable(mid, KeysOf(net)[..l], KeyAt(net, l), mask - 6 * l, leaf);
  }

  /** The cleared host part makes no difference to what is stated about the prefix. */
  lemma NetworkMeaning(view: map<Path, Internal>, view': map<Path, Internal>, dest: Address, mask: nat, leaf: Leaf)
    requires TrieWf(view) && 1 <= mask <= 32
    ensures TrieWf(view') ==>
              (Updates(view, view', dest, mask, leaf) <==> Updates(view, view', Network(dest, mask), mask, leaf))
    ensures SpineTo(dest, Level(mask)) == SpineTo(Network(dest, mask), Level(mask))
    ensures KeysOf(dest)[..Level(mask)] == KeysOf(Network(dest, mask))[..Level(mask)]
  {
    NetworkUnder(dest, mask);
    var l, net := Level(mask), Network(dest, mask);
    forall j | 0 <= j <= l
      ensures KeysOf(dest)[..j] == KeysOf(net)[..j]
    {
      assert KeysOf(dest)[..j] == KeysOf(dest)[..l][..j];
      assert KeysOf(net)[..j] == KeysOf(net)[..l][..j];
    }
  }

  /** What an insertion does to the tree, whatever it holds. */
  ghost predicate Puts(view: map<Path, Internal>, view': map<Path, Internal>, dest: Address, mask: nat, leaf: Leaf)
    requires TrieWf(view) && 1 <= mask <= 32
  {
    exists mid :: RepaintedFrom(view, mid, view', Network(dest, mask), mask, leaf)
  }

  /** The consequences for lookups. */
  lemma PutKeepsShape(view: map<Path, Internal>, view': map<Path, Internal>, dest: Address, mask: nat, leaf: Leaf)
    requires TrieWf(view) && 1 <= mask <= 32 && Puts(view, view', dest, mask, leaf)
    ensures Shaped(view') && view'.Keys == view.Keys + SpineTo(dest, Level(mask))
  {
    var mid :| RepaintedFrom(view, mid, view', Network(dest, mask), mask, leaf);
    NetworkMeaning(view, view', dest, mask, leaf);
    PutShaped(view, mid, view', Network(dest, mask), mask, leaf);
  }

  lemma PutThatFits(view: map<Path, Internal>, view': map<Path, Internal>, dest: Address, mask: nat, leaf: Leaf)
    requires TrieWf(view) && 1 <= mask <= 32 && leaf.mask == mask && Puts(view, view', dest, mask, leaf)
    requires Fits(view, dest, mask)
    ensures TrieWf(view') && Updates(view, view', dest, mask, leaf)
  {
    var net := Network(dest, mask);
    var mid :| RepaintedFrom(view, mid, view', net, mask, leaf);
    NetworkAgrees(dest, mask, dest);
    NetworkFits(view, dest, mask);
    PutUpdates(view, mid, view', net, mask, leaf);
    NetworkMeaning(view, view', dest, mask, leaf);
  }

  lemma PutThatDoesNotFit(view: map<Path, Internal>, view': map<Path, Internal>, dest: Address, mask: nat, leaf: Leaf)
    returns (k: nat)
    requires TrieWf(view) && 1 <= mask <= 32 && leaf.mask == mask && Puts(view, view', dest, mask, leaf)
    requires !Fits(view, dest, mask)
    ensures Unreadable(view', KeysOf(dest)[..Level(mask)], k)
  {
    var net := Network(dest, mask);
    var mid :| RepaintedFrom(view, mid, view', net, mask, leaf);
    NetworkAgrees(dest, mask, dest);
    NetworkFits(view, dest, mask);
    k := PutUnreadable(view, mid, view', net, mask, leaf);
    NetworkMeaning(view, view', dest, mask, leaf);
  }

  lemma NetworkFits(view: map<Path, Internal>, dest: Address, mask: nat)
    requires TrieWf(view) && 1 <= mask <= 32
    ensures Fits(view, dest, mask) <==> Fits(view, Network(dest, mask), mask)
  {
    NetworkUnder(dest, mask);
  }

  lemma PutMeaning(view: map<Path, Internal>, view': map<Path, Internal>, dest: Address, mask: nat, leaf: Leaf)
    requires TrieWf(view) && 1 <= mask <= 32 && leaf.mask == mask && Puts(view, view', dest, mask, leaf)
    ensures Shaped(view') && view'.Keys == view.Keys + SpineTo(dest, Level(mask))
    ensures Fits(view, dest, mask) ==> TrieWf(view') && Updates(view, view', dest, mask, leaf)
    ensures !Fits(view, dest, mask) ==> exists k :: Unreadable(view', KeysOf(dest)[..Level(mask)], k)
  {
    PutKeepsShape(view, view', dest, mask, leaf);
    if Fits(view, dest, mask) {
      PutThatFits(view, view', dest, mask, leaf);
    } else {
      var k := PutThatDoesNotFit(view, view', dest, mask, leaf);
    }
  }

  class Poptrie {
    var heap: Heap
    var nextBlock: nat
    var direct: seq<Option<Ptr>>
    var counterLeaf: int
    var counterInternal: int
    const cache: array<Leaf>
    ghost var at: map<Path, Ptr>
    ghost var view: map<Path, Internal>

    /** Every pointer is good: the tree is laid out in the heap and the shortcuts point into it. */
    ghost predicate Laid()
      reads `heap, `nextBlock, `direct, `at, `view
    {
      cache.Length == 64 && Mem(heap, nextBlock, at, view) && DirectOk(direct, at)
    }

    ghost predicate Valid()
      reads `heap, `nextBlock, `direct, `at, `view
    {
      Laid() && TrieWf(view)
    }

    /** The space counters are the numbers of nodes and leaves. */
    ghost predicate Counted()
      reads `counterInternal, `counterLeaf, `view
    {
      counterInternal == |view| && counterLeaf == LeafTotal(view)
    }

    constructor ()
      ensures Valid() && Counted() && fresh(cache)
      ensures view.Keys == {[]}
      ensures forall x :: KeyPath(x) ==> Lookup(view, x) == Leaf(0, 0)
    {
      var root := Internal(seq(64, i => i == 0), seq(64, i => false), None, [Leaf(0, 0)]);
      heap, nextBlock := map[ROOT.block := [root]], 1;
      direct := seq(DIRECT_SIZE, i => None);
      counterLeaf, counterInternal := 1, 1;
      cache := new Leaf[64](i => Leaf(0, 0));
      at, view := map[[] := ROOT], map[[] := root];
      new;
      NoOnes(root.vector, 64);
      FreshWf(root, Leaf(0, 0), 0);
      assert NodeOk(view, []);
      assert NodeAt(heap, at, view, []);
      LeafTotalRemove(view, []);
      assert view - {[]} == map[];
      forall x | KeyPath(x)
        ensures Lookup(view, x) == Leaf(0, 0)
      {
        assert x[..0] == [];
      }
    }

    /** Where a lookup or an insertion enters: the level-2 node of the first twelve bits if there is one. */
    method Enter(dest: Address, shortcut: bool) returns (cur: Ptr, level: nat)
      requires Laid()
      ensures level == 0 || level == 2
      ensures KeysOf(dest)[..level] in at && at[KeysOf(dest)[..level]] == cur
      ensures level == 2 ==> shortcut
    {
      var h := Shr(dest, 20);
      TopTwo(dest);
      var a, b := KeyAt(dest, 0), KeyAt(dest, 1);
      assert DirectEntry(direct, at, a, b);
      assert KeysOf(dest)[..2] == [a, b] && KeysOf(dest)[..0] == [];
      if !shortcut || direct[h].None? {
        cur, level := ROOT, 0;
      } else {
        cur, level := direct[h].value, 2;
      }
    }

    /** One node of a lookup: the entry of the key, or the child it leads to. */
    method Follow(cur: Ptr, key: nat, ghost x: seq<nat>, ghost j: nat)
      returns (done: bool, entry: Option<Leaf>, next: Ptr)
      requires Laid() && Shaped(view) && KeyPath(x) && j <= 5 && key == x[j]
      requires x[..j] in view && x[..j] in at && at[x[..j]] == cur
      ensures done ==> entry == ReadFrom(view, x, j)
      ensures !done ==>
                && j < 5 && x[..j + 1] in view && x[..j + 1] in at && at[x[..j + 1]] == next
                && ReadFrom(view, x, j) == ReadFrom(view, x, j + 1)
    {
      assert NodeShaped(view, x[..j]) && NodeAt(heap, at, view, x[..j]);
      var node := Deref(heap, cur);
      var runs, children, bit, lbit := Rank(node, key);
      assert x[..j] + [key] == x[..j + 1];
      next, entry := cur, None;
      if !bit {
        if 1 <= runs <= |node.leaf| {
          entry := Some(node.leaf[runs - 1]);
        }
        return true, entry, next;
      }
      assert NodeShaped(view, x[..j + 1]);
      return false, None, Ptr(node.child.value, children - 1);
    }

    /** The loop of the lookup; the unsigned bit count may run past zero, but a leaf is met first. */
    method Walk(dest: Address, cur0: Ptr, level: nat) returns (result: Option<Leaf>)
      requires Laid() && Shaped(view) && (level == 0 || level == 2)
      requires KeysOf(dest)[..level] in at && at[KeysOf(dest)[..level]] == cur0
      ensures result == Read(view, KeysOf(dest))
    {
      ghost var x := KeysOf(dest);
      var mask, rest, cur := 32, dest, cur0;
      if level == 2 {
        mask := mask - 12;
        rest := Shl(Shl(dest));
        assert Rest(dest, 1) == Shl(Rest(dest, 0));
      }
      ReadPasses(view, x, level);
      ghost var j := level;
      result := None;
      while mask > 0
        invariant j <= 5 && mask == 32 - 6 * j && rest == Rest(dest, j)
        invariant x[..j] in at && at[x[..j]] == cur && x[..j] in view
        invariant Read(view, x) == ReadFrom(view, x, j)
        decreases 6 - j
      {
        var key := Top(rest);
        mask := (mask + U32 - 6) % U32;
        rest := Shl(rest);
        var done, entry, next := Follow(cur, key, x, j);
        if done {
          return entry;
        }
        cur := next;
        j := j + 1;
      }
    }

    /** The entry a lookup returns, or none if it reads outside the leaf array it has reached. */
    method Get(dest: Address) returns (result: Option<Leaf>)
      requires Laid() && Shaped(view)
      ensures result == Read(view, KeysOf(dest))
      ensures TrieWf(view) ==> result == Some(Lookup(view, KeysOf(dest)))
    {
      var cur, level := Enter(dest, true);
      result := Walk(dest, cur, level);
      if TrieWf(view) {
        ReadIsLookup(view, KeysOf(dest));
      }
    }

    /** The shortcut only saves steps: without it the lookup gives the same entry. */
    method GetWithoutShortcut(dest: Address) returns (result: Option<Leaf>)
      requires Laid() && Shaped(view)
      ensures result == Read(view, KeysOf(dest))
    {
      assert KeysOf(dest)[..0] == [];
      result := Walk(dest, ROOT, 0);
    }

    method RenewPointing(head: nat, vec: Bits, newChild: nat)
      requires |direct| == DIRECT_SIZE && head + 64 <= DIRECT_SIZE
      modifies this`direct
      ensures |direct| == DIRECT_SIZE
      ensures forall h :: 0 <= h < DIRECT_SIZE ==>
                direct[h] == if head <= h < head + 64 && vec[h - head] then Some(Ptr(newChild, Ones(vec, h - head)))
                             else old(direct)[h]
    {
      var idx := 0;
      for i := 0 to 64
        invariant |direct| == DIRECT_SIZE && idx == Ones(vec, i)
        invariant forall h :: 0 <= h < DIRECT_SIZE ==>
                    direct[h] == if head <= h < head + i && vec[h - head] then Some(Ptr(newChild, Ones(vec, h - head)))
                                 else old(direct)[h]
      {
        if vec[i] {
          direct := direct[head + i := Some(Ptr(newChild, idx))];
          idx := idx + 1;
        }
      }
    }

    /** The new child block, with the shortcuts into it, and the parent that points at it. */
    method Install(cur: Ptr, key: nat, children: nat, n: Internal, newNode: Internal, level: nat, head: nat,
                   ghost p: Path)
      requires Laid() && TrieWf(view) && p in at && at[p] == cur && level == |p| && key < 64
      requires NewChild(view, p, key, n, newNode, nextBlock) && children == Ones(view[p].vector, key)
      requires level == 1 ==> p[0] < 64 && head == p[0] * 64
      modifies this`heap, this`nextBlock, this`direct, this`at, this`view
      ensures Laid()
      ensures view == GrownView(old(view), p, key, n, newNode)
      ensures p in at && at[p] == cur
    {
      GrowthPossible(heap, nextBlock, at, view, p, key);
      ghost var heap0, direct0 := heap, direct;
      var newChild := nextBlock;
      var child := Deref(heap, cur).child;
      heap := Freed(heap, child)[newChild := Grown(heap, child, children, newNode)];
      nextBlock := nextBlock + 1;
      if level == 1 {
        RenewPointing(head, n.vector, newChild);
      }
      heap := heap[cur.block := heap[cur.block][cur.idx := n]];
      GrowthKeepsLayout(heap0, newChild, at, view, direct0, p, key, n, newNode, heap, direct);
      at := MovedAt(at, p, key, newChild, n.vector);
      view := GrownView(view, p, key, n, newNode);
    }

    method CountNode(dropped: bool)
      modifies this`counterInternal, this`counterLeaf
      ensures counterInternal == old(counterInternal) + 1
      ensures counterLeaf == old(counterLeaf) + if dropped then 0 else 1
    {
      counterInternal := counterInternal + 1;
      if dropped {
        counterLeaf := counterLeaf - 1;
      }
      counterLeaf := counterLeaf + 1;
    }

    /** A leaf slot becomes a child: the child block is reallocated and the shortcuts into it renewed. */
    method Expand(cur: Ptr, key: nat, runs: nat, children: nat, lbit: bool, level: nat, head: nat, ghost p: Path)
      requires Laid() && TrieWf(view) && p in at && p in view && at[p] == cur && level == |p| <= 4 && key < 64
      requires Allocated(heap, cur) && Deref(heap, cur) == view[p] && NodeOk(view, p) && !view[p].vector[key]
      requires runs == Ones(view[p].leafvec, key + 1) && lbit == view[p].leafvec[key]
                 && children == Ones(view[p].vector, key)
      requires level == 1 ==> p[0] < 64 && head == p[0] * 64
      modifies this
      ensures Laid() && (old(Counted()) ==> Counted())
      ensures TrieWf(view) && SameLookups(old(view), view) && view.Keys == old(view).Keys + {p + [key]}
      ensures p in at && at[p] == cur && p in view && Ones(view[p].vector, key) == children && OneRun(view[p + [key]])
    {
      var n, newNode, dropped := SplitSlot(Deref(heap, cur), key, runs, lbit, nextBlock);
      SplitMeaning(view, p, key, n, newNode, nextBlock);
      Install(cur, key, children, n, newNode, level, head, p);
      CountNode(dropped);
    }

    /** One step of the descent: into the child of the key, which is made if it is missing. */
    method Descend(cur: Ptr, key: nat, level: nat, head: nat, ghost x: seq<nat>) returns (next: Ptr)
      requires Valid() && KeyPath(x) && level <= 4 && key == x[level] && head == x[0] * 64
      requires x[..level] in view && x[..level] in at && at[x[..level]] == cur
      modifies this
      ensures Valid()
      ensures x[..level + 1] in at && at[x[..level + 1]] == next
      ensures view.Keys == old(view).Keys + {x[..level + 1]} && SameLookups(old(view), view)
      ensures SameOrNew(old(view), view, x[..level + 1])
      ensures old(Counted()) ==> Counted()
    {
      ghost var p := x[..level];
      assert p + [key] == x[..level + 1];
      assert NodeOk(view, p) && NodeAt(heap, at, view, p);
      var runs, children, bit, lbit := Rank(Deref(heap, cur), key);
      if bit {
        children := children - 1;
      } else {
        Expand(cur, key, runs, children, lbit, level, head, p);
      }
      ChildPointer(heap, nextBlock, at, view, p, key);
      next := Ptr(Deref(heap, cur).child.value, children);
    }

    /** The last node of an insertion is repainted in place. */
    method PaintLast(cur: Ptr, key: nat, w: nat, mask: nat, iface: nat, ghost p: Path)
      requires Valid() && p in at && p in view && at[p] == cur && |p| <= 5 && 1 <= w <= 6 && mask == 6 * |p| + w
      requires key < 64 && Clear(key, 6 - w) && NodeOk(view, p)
      modifies this`heap, this`view, this`counterLeaf, cache
      ensures Laid() && (old(Counted()) ==> Counted())
      ensures key + Pow2(6 - w) <= 64
      ensures view == old(view)[p := Repainted(old(view)[p], key, key + Pow2(6 - w), Leaf(iface, mask))]
    {
      assert NodeAt(heap, at, view, p);
      var n, growth := Paint(Deref(heap, cur), key, w, Leaf(iface, mask), cache, |p|);
      MemStore(heap, nextBlock, at, view, p, n);
      StoreCounts(view, p, n);
      heap := Store(heap, cur, n);
      view := view[p := n];
      counterLeaf := counterLeaf + growth;
    }

    /** The entry of an insertion, which takes the shortcut for prefixes of more than twelve bits only. */
    method EnterPut(net: Address, mask: nat) returns (cur: Ptr, rest: Address, left: nat, level: nat)
      requires Valid() && 1 <= mask <= 32
      ensures level <= Level(mask) && left == mask - 6 * level && rest == Rest(net, level)
      ensures KeysOf(net)[..level] in at && at[KeysOf(net)[..level]] == cur
      ensures view.Keys == view.Keys + SpineTo(net, level)
    {
      rest, left := net, mask;
      cur, level := Enter(net, mask > 12);
      if level == 2 {
        left := left - 12;
        rest := Shl(Shl(net));
        assert Rest(net, 1) == Shl(Rest(net, 0));
      }
      SpineIn(view, net, level);
    }

    /** The descent to the node that holds the leaves of the prefix. */
    method DescendTo(net: Address, mask: nat) returns (cur: Ptr, rest: Address, left: nat, ghost l: nat)
      requires Valid() && 1 <= mask <= 32
      modifies this
      ensures Valid() && (old(Counted()) ==> Counted())
      ensures l == Level(mask) && left == mask - 6 * l && rest == Rest(net, l)
      ensures KeysOf(net)[..l] in at && at[KeysOf(net)[..l]] == cur
      ensures view.Keys == old(view).Keys + SpineTo(net, l) && SameLookups(old(view), view)
      ensures SameOrNew(old(view), view, KeysOf(net)[..l])
    {
      var head := Top(net) * 64;
      var level;
      cur, rest, left, level := EnterPut(net, mask);
      while left > K
        invariant Valid() && (old(Counted()) ==> Counted())
        invariant level <= Level(mask) && left == mask - 6 * level && rest == Rest(net, level)
        invariant KeysOf(net)[..level] in at && at[KeysOf(net)[..level]] == cur
        invariant Descended(old(view), view, net, level)
        decreases left
      {
        var key := Top(rest);
        rest := Shl(rest);
        ghost var before := view;
        cur := Descend(cur, key, level, head, KeysOf(net));
        OneDeeper(old(view), before, view, net, level);
        level := level + 1;
        left := left - K;
      }
      l := level;
    }

    /** The node the descent has reached is repainted in the slots of the prefix. */
    method PaintEnd(net: Address, mask: nat, iface: nat, cur: Ptr, rest: Address, left: nat)
      requires Valid() && 1 <= mask <= 32 && left == mask - 6 * Level(mask) && rest == Rest(net, Level(mask))
      requires Clear(KeyAt(net, Level(mask)), 6 - left)
      requires var p := KeysOf(net)[..Level(mask)]; p in view && p in at && at[p] == cur && NodeOk(view, p)
      modifies this`heap, this`view, this`counterLeaf, cache
      ensures Laid() && (old(Counted()) ==> Counted())
      ensures var l := Level(mask);
              var p, lo, hi := KeysOf(net)[..l], KeyAt(net, l), KeyAt(net, l) + Pow2(6 * l + 6 - mask);
              hi <= 64 && view == old(view)[p := Repainted(old(view)[p], lo, hi, Leaf(iface, mask))]
    {
      PaintLast(cur, Top(rest), left, mask, iface, KeysOf(net)[..Level(mask)]);
    }

    /** The insertion of an aligned prefix. */
    method PutNetwork(net: Address, mask: nat, iface: nat) returns (ghost mid: map<Path, Internal>)
      requires Valid() && 1 <= mask <= 32 && Clear(net, 32 - mask)
      modifies this, cache
      ensures Laid() && (old(Counted()) ==> Counted())
      ensures RepaintedFrom(old(view), mid, view, net, mask, Leaf(iface, mask))
    {
      var cur, rest, left;
      ghost var l;
      cur, rest, left, l := DescendTo(net, mask);
      mid := view;
      EndNode(old(view), mid, net, mask);
      PaintEnd(net, mask, iface, cur, rest, left);
    }

    /**
     Insertion into any sound structure.  If no longer prefix holds a leaf under
     the new one, exactly the addresses under it that end at its level change;
     otherwise entries are dropped, and some lookup reads outside the leaf array.
     */
    method Put(dest: Address, mask: nat, iface: nat)
      requires Valid() && 1 <= mask <= 32
      modifies this, cache
      ensures Laid() && Shaped(view) && (old(Counted()) ==> Counted())
      ensures Puts(old(view), view, dest, mask, Leaf(iface, mask))
      ensures view.Keys == old(view).Keys + SpineTo(dest, Level(mask))
      ensures Fits(old(view), dest, mask) ==> TrieWf(view) && Updates(old(view), view, dest, mask, Leaf(iface, mask))
      ensures !Fits(old(view), dest, mask) ==> exists k :: Unreadable(view, KeysOf(dest)[..Level(mask)], k)
    {
      var net := Network(dest, mask);
      NetworkAgrees(dest, mask, dest);
      ghost var mid := PutNetwork(net, mask, iface);
      PutMeaning(old(view), view, dest, mask, Leaf(iface, mask));
    }
  }
}
