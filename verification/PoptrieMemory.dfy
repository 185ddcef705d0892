/**
 How the nodes of a poptrie lie in memory.  The children of a node are one
 allocated block, in key order; a pointer is a block and an index into it.
 A block that is freed leaves the heap, so a pointer kept for too long shows.
 */
module PoptrieMemory {
  import opened Options
  import opened PoptrieNode
  import opened PoptrieTree

  datatype Ptr = Ptr(block: nat, idx: nat)

  type Heap = map<nat, seq<Internal>>

  const ROOT := Ptr(0, 0)
  const DIRECT_SIZE := 0x1000

  ghost predicate Allocated(heap: Heap, p: Ptr) {
    p.block in heap && p.idx < |heap[p.block]|
  }

  function Deref(heap: Heap, p: Ptr): Internal
    requires p.block in heap && p.idx < |heap[p.block]|
  {
    heap[p.block][p.idx]
  }

  function Store(heap: Heap, p: Ptr, n: Internal): Heap
    requires p.block in heap && p.idx < |heap[p.block]|
  {
    heap[p.block := heap[p.block][p.idx := n]]
  }

  /** The node with path `p` is where `at` says, and its children fill one block in key order. */
  ghost predicate NodeAt(heap: Heap, at: map<Path, Ptr>, view: map<Path, Internal>, p: Path)
    requires p in at && p in view
  {
    && Allocated(heap, at[p]) && Deref(heap, at[p]) == view[p]
    && (view[p].child.None? ==> Ones(view[p].vector, 64) == 0)
    && (view[p].child.Some? ==>
          && view[p].child.value in heap && view[p].child.value != ROOT.block
          && |heap[view[p].child.value]| == Ones(view[p].vector, 64))
    && (forall k: nat :: k < 64 && p + [k] in at ==>
          && view[p].child.Some? && view[p].vector[k]
          && at[p + [k]] == Ptr(view[p].child.value, Ones(view[p].vector, k)))
    && (p != [] ==> p[..|p| - 1] in at && p[|p| - 1] < 64)
  }

  ghost predicate ShareChild(view: map<Path, Internal>, p: Path, q: Path) {
    p in view && q in view && view[p].child.Some? && view[p].child == view[q].child
  }

  ghost predicate Separate(view: map<Path, Internal>) {
    forall p, q {:trigger ShareChild(view, p, q)} :: ShareChild(view, p, q) ==> p == q
  }

  ghost predicate Mem(heap: Heap, next: nat, at: map<Path, Ptr>, view: map<Path, Internal>) {
    && at.Keys == view.Keys
    && [] in at && at[[]] == ROOT
    && AllNodesAt(heap, at, view)
    && Separate(view)
    && (forall b :: b in heap ==> b < next)
  }

  /** `direct_pointing` holds a pointer exactly for the level-2 nodes, and it is the right one. */
  ghost predicate DirectOk(direct: seq<Option<Ptr>>, at: map<Path, Ptr>) {
    && |direct| == DIRECT_SIZE
    && forall a: nat, b: nat :: a < 64 && b < 64 ==> DirectEntry(direct, at, a, b)
  }

  ghost predicate DirectEntry(direct: seq<Option<Ptr>>, at: map<Path, Ptr>, a: nat, b: nat)
    requires |direct| == DIRECT_SIZE && a < 64 && b < 64
  {
    direct[a * 64 + b] == if [a, b] in at then Some(at[[a, b]]) else None
  }

  lemma ParentPointer(heap: Heap, at: map<Path, Ptr>, view: map<Path, Internal>, next: nat, p: Path)
    requires Mem(heap, next, at, view) && p in at && p != []
    ensures p[..|p| - 1] in at && p[|p| - 1] < 64
    ensures var u, k := p[..|p| - 1], p[|p| - 1];
            view[u].child.Some? && view[u].vector[k] && at[p] == Ptr(view[u].child.value, Ones(view[u].vector, k))
    ensures at[p].block != ROOT.block
  {
    assert NodeAt(heap, at, view, p);
    var u, k := p[..|p| - 1], p[|p| - 1];
    assert NodeAt(heap, at, view, u);
    assert u + [k] == p;
  }

  /** No two nodes share a place. */
  lemma AtInjective(heap: Heap, at: map<Path, Ptr>, view: map<Path, Internal>, next: nat, p: Path, q: Path)
    requires Mem(heap, next, at, view) && p in at && q in at && at[p] == at[q]
    ensures p == q
  {
    if p != [] {
      ParentPointer(heap, at, view, next, p);
    }
    if q != [] {
      ParentPointer(heap, at, view, next, q);
    }
    if p != [] && q != [] {
      var v := view[p[..|p| - 1]].vector;
      assert ShareChild(view, p[..|p| - 1], q[..|q| - 1]);
      var k, l := p[|p| - 1], q[|q| - 1];
      if k < l {
        OnesMono(v, k, l);
      } else if l < k {
        OnesMono(v, l, k);
      }
      assert p == p[..|p| - 1] + [k] && q == q[..|q| - 1] + [l];
    }
  }

  lemma StoreKeepsNode(heap: Heap, next: nat, at: map<Path, Ptr>, view: map<Path, Internal>, p: Path, n: Internal,
                       q: Path)
    requires Mem(heap, next, at, view) && p in at && q in at && n.vector == view[p].vector && n.child == view[p].child
    requires Allocated(heap, at[p])
    ensures NodeAt(Store(heap, at[p], n), at, view[p := n], q)
  {
    assert NodeAt(heap, at, view, q);
    if q != p {
      if at[q] == at[p] {
        AtInjective(heap, at, view, next, p, q);
      }
    }
  }

  /** Rewriting a node in place, children untouched. */
  lemma MemStore(heap: Heap, next: nat, at: map<Path, Ptr>, view: map<Path, Internal>, p: Path, n: Internal)
    requires Mem(heap, next, at, view) && p in at && n.vector == view[p].vector && n.child == view[p].child
    ensures Allocated(heap, at[p])
    ensures Mem(Store(heap, at[p], n), next, at, view[p := n])
  {
    assert NodeAt(heap, at, view, p);
    forall q | q in at
      ensures NodeAt(Store(heap, at[p], n), at, view[p := n], q)
    {
      StoreKeepsNode(heap, next, at, view, p, n, q);
    }
    SeparateStore(view, p, n);
  }

  lemma SeparateStore(view: map<Path, Internal>, p: Path, n: Internal)
    requires Separate(view) && p in view && n.child == view[p].child
    ensures Separate(view[p := n])
  {
    var view' := view[p := n];
    forall u, v | ShareChild(view', u, v)
      ensures u == v
    {
      assert ShareChild(view, u, v);
    }
  }

  // ----- Growing a child block -------------------------------------------

  /** The child block of a node, after `newNode` has been inserted behind its first `r` nodes. */
  function Grown(heap: Heap, child: Option<nat>, r: nat, newNode: Internal): seq<Internal>
    requires child.Some? ==> child.value in heap && r <= |heap[child.value]|
    requires child.None? ==> r == 0
  {
    if child.None? then [newNode] else heap[child.value][..r] + [newNode] + heap[child.value][r..]
  }

  function Freed(heap: Heap, child: Option<nat>): Heap {
    if child.None? then heap else heap - {child.value}
  }

  ghost predicate ChildOf(q: Path, p: Path) {
    |q| == |p| + 1 && q[..|p|] == p && q[|p|] < 64
  }

  ghost function MovedAt(at: map<Path, Ptr>, p: Path, key: nat, next: nat, vector: Bits): map<Path, Ptr> {
    map q | q in at.Keys + {p + [key]} ::
      if ChildOf(q, p) then Ptr(next, Ones(vector, q[|p|])) else if q in at then at[q] else ROOT
  }

  lemma {:induction false} OnesAfterSet(b: Bits, key: nat, k: nat)
    requires key < 64 && !b[key] && k <= 64
    ensures Ones(b[key := true], k) == Ones(b, k) + if key < k then 1 else 0
  {
    if k > 0 {
      OnesAfterSet(b, key, k - 1);
    }
  }

  /** The block a node lies in survives the growth of another node's child block. */
  lemma BlockSurvives(heap: Heap, next: nat, at: map<Path, Ptr>, view: map<Path, Internal>, p: Path, q: Path)
    requires Mem(heap, next, at, view) && p in at && q in at && !ChildOf(q, p)
    ensures Allocated(heap, at[q]) && at[q].block < next
    ensures view[p].child.Some? ==> view[p].child.value in heap && at[q].block != view[p].child.value
  {
    assert NodeAt(heap, at, view, q) && NodeAt(heap, at, view, p);
    if q != [] {
      ParentPointer(heap, at, view, next, q);
      assert !ShareChild(view, p, q[..|q| - 1]);
    }
  }

  /** Inserting behind the first `Ones(v, key)` elements puts every element at its new rank. */
  lemma RankInGrown(block: seq<Internal>, v: Bits, key: nat, newNode: Internal, k: nat)
    requires key < 64 && k < 64 && !v[key] && |block| == Ones(v, 64) && (k == key || v[k])
    ensures Ones(v, key) <= |block| && (k != key ==> Ones(v, k) < |block|)
    ensures var g := block[..Ones(v, key)] + [newNode] + block[Ones(v, key)..];
            var i := Ones(v[key := true], k);
            |g| == Ones(v[key := true], 64) && i < |g| && g[i] == if k == key then newNode else block[Ones(v, k)]
  {
    OnesMono(v, key, 64);
    OnesAfterSet(v, key, 64);
    OnesAfterSet(v, key, k);
    if k < key {
      OnesMono(v, k, 64);
      OnesMono(v, k, key);
    } else if key < k {
      OnesMono(v, k, 64);
      OnesMono(v, key, k);
    }
  }

  /** A moved or new child sits at its rank in the grown block. */
  lemma ChildPlaced(heap: Heap, next: nat, at: map<Path, Ptr>, view: map<Path, Internal>, p: Path, key: nat,
                    newNode: Internal, k: nat)
    requires Mem(heap, next, at, view) && p in at && key < 64 && k < 64 && p + [key] !in at && !view[p].vector[key]
    requires k == key || p + [k] in at
    requires view[p].child.Some? ==>
               view[p].child.value in heap && Ones(view[p].vector, key) <= |heap[view[p].child.value]|
    requires view[p].child.None? ==> Ones(view[p].vector, key) == 0
    ensures var g := Grown(heap, view[p].child, Ones(view[p].vector, key), newNode);
            var i := Ones(view[p].vector[key := true], k);
            && |g| == Ones(view[p].vector[key := true], 64)
            && i < |g| && g[i] == if k == key then newNode else view[p + [k]]
  {
    assert NodeAt(heap, at, view, p);
    var block := if view[p].child.Some? then heap[view[p].child.value] else [];
    RankInGrown(block, view[p].vector, key, newNode, k);
    assert Grown(heap, view[p].child, Ones(view[p].vector, key), newNode)
        == block[..Ones(view[p].vector, key)] + [newNode] + block[Ones(view[p].vector, key)..];
    if k != key {
      assert NodeAt(heap, at, view, p + [k]);
    }
  }

  /** The heap after the child block of `p` has been replaced by a larger one and `p` by `n`. */
  ghost predicate GrownHeap(heap: Heap, next: nat, at: map<Path, Ptr>, view: map<Path, Internal>, p: Path, key: nat,
                            n: Internal, newNode: Internal, heap': Heap)
    requires p in at && p in view && key < 64
  {
    && at[p].block in heap && at[p].block < next && at[p].idx < |heap[at[p].block]|
    && (view[p].child.Some? ==>
          && view[p].child.value in heap && view[p].child.value != at[p].block
          && Ones(view[p].vector, key) <= |heap[view[p].child.value]|)
    && (view[p].child.None? ==> Ones(view[p].vector, key) == 0)
    && heap' == Freed(heap, view[p].child)[next := Grown(heap, view[p].child, Ones(view[p].vector, key), newNode)]
                 [at[p].block := heap[at[p].block][at[p].idx := n]]
  }

  ghost predicate NewChild(view: map<Path, Internal>, p: Path, key: nat, n: Internal, newNode: Internal, next: nat) {
    && p in view && key < 64 && p + [key] !in view && !view[p].vector[key]
    && n.vector == view[p].vector[key := true] && n.child == Some(next)
    && newNode.child == None && newNode.vector == seq(64, i => false)
  }

  ghost function GrownView(view: map<Path, Internal>, p: Path, key: nat, n: Internal, newNode: Internal)
    : map<Path, Internal>
  {
    view[p := n][p + [key] := newNode]
  }

  /** Where a child of `p` is found after the growth. */
  lemma GrownChild(heap: Heap, next: nat, at: map<Path, Ptr>, view: map<Path, Internal>, p: Path, key: nat,
                   n: Internal, newNode: Internal, heap': Heap, k: nat)
    requires Mem(heap, next, at, view) && p in at && NewChild(view, p, key, n, newNode, next)
    requires GrownHeap(heap, next, at, view, p, key, n, newNode, heap')
    requires k < 64 && (k == key || p + [k] in at)
    ensures var ptr := Ptr(next, Ones(n.vector, k));
            Allocated(heap', ptr) && Deref(heap', ptr) == GrownView(view, p, key, n, newNode)[p + [k]]
    ensures |heap'[next]| == Ones(n.vector, 64)
  {
    ChildPlaced(heap, next, at, view, p, key, newNode, k);
    assert p + [k] == p + [key] <==> k == key by {
      assert (p + [k])[|p|] == k && (p + [key])[|p|] == key;
    }
  }

  /** Every other node stays where it is. */
  lemma GrownOther(heap: Heap, next: nat, at: map<Path, Ptr>, view: map<Path, Internal>, p: Path, key: nat,
                   n: Internal, newNode: Internal, heap': Heap, q: Path)
    requires Mem(heap, next, at, view) && p in at && NewChild(view, p, key, n, newNode, next)
    requires GrownHeap(heap, next, at, view, p, key, n, newNode, heap')
    requires q in at && !ChildOf(q, p)
    ensures Allocated(heap', at[q]) && Deref(heap', at[q]) == GrownView(view, p, key, n, newNode)[q]
  {
    assert NodeAt(heap, at, view, q);
    BlockSurvives(heap, next, at, view, p, q);
    if q != p {
      if at[q] == at[p] {
        AtInjective(heap, at, view, next, p, q);
      }
    }
  }

  /** The child block of another node is untouched, apart from a node rewritten in place. */
  lemma GrownBlock(heap: Heap, next: nat, at: map<Path, Ptr>, view: map<Path, Internal>, p: Path, key: nat,
                   n: Internal, newNode: Internal, heap': Heap, q: Path)
    requires Mem(heap, next, at, view) && p in at && NewChild(view, p, key, n, newNode, next)
    requires GrownHeap(heap, next, at, view, p, key, n, newNode, heap')
    requires q in at && q != p && view[q].child.Some?
    ensures view[q].child.value in heap' && view[q].child.value in heap && view[q].child.value != ROOT.block
    ensures |heap'[view[q].child.value]| == |heap[view[q].child.value]| == Ones(view[q].vector, 64)
  {
    assert NodeAt(heap, at, view, q);
    assert !ShareChild(view, p, q);
  }

  /** A node other than `p` and its new child keeps its place, its children and their order. */
  lemma GrownNodeAt(heap: Heap, next: nat, at: map<Path, Ptr>, view: map<Path, Internal>, p: Path, key: nat,
                    n: Internal, newNode: Internal, heap': Heap, q: Path)
    requires Mem(heap, next, at, view) && p in at && NewChild(view, p, key, n, newNode, next)
    requires GrownHeap(heap, next, at, view, p, key, n, newNode, heap')
    requires q in at && q != p
    ensures NodeAt(heap', MovedAt(at, p, key, next, n.vector), GrownView(view, p, key, n, newNode), q)
  {
    assert NodeAt(heap, at, view, q);
    if ChildOf(q, p) {
      assert q == p + [q[|p|]];
      GrownChild(heap, next, at, view, p, key, n, newNode, heap', q[|p|]);
    } else {
      GrownOther(heap, next, at, view, p, key, n, newNode, heap', q);
    }
    if view[q].child.Some? {
      GrownBlock(heap, next, at, view, p, key, n, newNode, heap', q);
    }
    forall k: nat | k < 64
      ensures !ChildOf(q + [k], p) && q + [k] != p + [key]
    {
      assert (q + [k])[..|q|] == q && (p + [key])[..|p|] == p;
    }
  }

  lemma GrownNodeAtParent(heap: Heap, next: nat, at: map<Path, Ptr>, view: map<Path, Internal>, p: Path, key: nat,
                          n: Internal, newNode: Internal, heap': Heap)
    requires Mem(heap, next, at, view) && p in at && NewChild(view, p, key, n, newNode, next)
    requires GrownHeap(heap, next, at, view, p, key, n, newNode, heap')
    ensures NodeAt(heap', MovedAt(at, p, key, next, n.vector), GrownView(view, p, key, n, newNode), p)
  {
    assert NodeAt(heap, at, view, p);
    GrownOther(heap, next, at, view, p, key, n, newNode, heap', p);
    GrownChild(heap, next, at, view, p, key, n, newNode, heap', key);
    if p != [] {
      ParentPointer(heap, at, view, next, p);
    }
    var at' := MovedAt(at, p, key, next, n.vector);
    forall k: nat | k < 64 && p + [k] in at'
      ensures n.vector[k] && at'[p + [k]] == Ptr(next, Ones(n.vector, k))
    {
      assert ChildOf(p + [k], p);
      assert (p + [k])[|p|] == k && (p + [key])[|p|] == key;
    }
  }

  lemma {:induction false} NoOnes(b: Bits, k: nat)
    requires b == seq(64, i => false) && k <= 64
    ensures Ones(b, k) == 0
  {
    if k > 0 {
      NoOnes(b, k - 1);
    }
  }

  lemma ChildNeedsParent(heap: Heap, next: nat, at: map<Path, Ptr>, view: map<Path, Internal>, q: Path, k: nat)
    requires Mem(heap, next, at, view) && q + [k] in at
    ensures q in at
  {
    assert NodeAt(heap, at, view, q + [k]);
    assert (q + [k])[..|q + [k]| - 1] == q;
  }

  lemma GrownNodeAtNew(heap: Heap, next: nat, at: map<Path, Ptr>, view: map<Path, Internal>, p: Path, key: nat,
                       n: Internal, newNode: Internal, heap': Heap)
    requires Mem(heap, next, at, view) && p in at && NewChild(view, p, key, n, newNode, next)
    requires GrownHeap(heap, next, at, view, p, key, n, newNode, heap')
    ensures NodeAt(heap', MovedAt(at, p, key, next, n.vector), GrownView(view, p, key, n, newNode), p + [key])
  {
    var q := p + [key];
    assert ChildOf(q, p);
    GrownChild(heap, next, at, view, p, key, n, newNode, heap', key);
    NoOnes(newNode.vector, 64);
    assert q[..|q| - 1] == p;
    forall k: nat | k < 64
      ensures q + [k] !in at && q + [k] != q
    {
      assert |q + [k]| == |q| + 1;
      if q + [k] in at {
        ChildNeedsParent(heap, next, at, view, q, k);
      }
    }
  }

  lemma SeparateGrown(heap: Heap, next: nat, at: map<Path, Ptr>, view: map<Path, Internal>, p: Path, key: nat,
                      n: Internal, newNode: Internal)
    requires Mem(heap, next, at, view) && p in at && NewChild(view, p, key, n, newNode, next)
    ensures Separate(GrownView(view, p, key, n, newNode))
  {
    var view' := GrownView(view, p, key, n, newNode);
    forall q | q in view && q != p && view[q].child.Some?
      ensures view[q].child.value < next
    {
      assert NodeAt(heap, at, view, q);
    }
    forall u, v | ShareChild(view', u, v)
      ensures u == v
    {
      if u != p && v != p {
        assert ShareChild(view, u, v);
      }
    }
  }

  lemma GrownNodes(heap: Heap, next: nat, at: map<Path, Ptr>, view: map<Path, Internal>, p: Path, key: nat,
                   n: Internal, newNode: Internal, heap': Heap, q: Path)
    requires Mem(heap, next, at, view) && p in at && NewChild(view, p, key, n, newNode, next)
    requires GrownHeap(heap, next, at, view, p, key, n, newNode, heap')
    requires q in MovedAt(at, p, key, next, n.vector) && q in GrownView(view, p, key, n, newNode)
    ensures NodeAt(heap', MovedAt(at, p, key, next, n.vector), GrownView(view, p, key, n, newNode), q)
  {
    if q == p + [key] {
      GrownNodeAtNew(heap, next, at, view, p, key, n, newNode, heap');
    } else if q == p {
      GrownNodeAtParent(heap, next, at, view, p, key, n, newNode, heap');
    } else {
      GrownNodeAt(heap, next, at, view, p, key, n, newNode, heap', q);
    }
  }

  ghost predicate AllNodesAt(heap: Heap, at: map<Path, Ptr>, view: map<Path, Internal>) {
    forall p {:trigger NodeAt(heap, at, view, p)} :: p in at && p in view ==> NodeAt(heap, at, view, p)
  }

  lemma GrownAllNodes(heap: Heap, next: nat, at: map<Path, Ptr>, view: map<Path, Internal>, p: Path, key: nat,
                      n: Internal, newNode: Internal, heap': Heap)
    requires Mem(heap, next, at, view) && p in at && NewChild(view, p, key, n, newNode, next)
    requires GrownHeap(heap, next, at, view, p, key, n, newNode, heap')
    ensures AllNodesAt(heap', MovedAt(at, p, key, next, n.vector), GrownView(view, p, key, n, newNode))
  {
    var at', view' := MovedAt(at, p, key, next, n.vector), GrownView(view, p, key, n, newNode);
    forall q | q in at' && q in view'
      ensures NodeAt(heap', at', view', q)
    {
      GrownNodes(heap, next, at, view, p, key, n, newNode, heap', q);
    }
  }

  lemma GrownBounds(heap: Heap, next: nat, at: map<Path, Ptr>, view: map<Path, Internal>, p: Path, key: nat,
                    n: Internal, newNode: Internal, heap': Heap)
    requires Mem(heap, next, at, view) && p in at && NewChild(view, p, key, n, newNode, next)
    requires GrownHeap(heap, next, at, view, p, key, n, newNode, heap')
    ensures forall b :: b in heap' ==> b < next + 1
    ensures MovedAt(at, p, key, next, n.vector).Keys == GrownView(view, p, key, n, newNode).Keys
    ensures [] in at && MovedAt(at, p, key, next, n.vector)[[]] == ROOT
  {
    assert p + [key] != [];
  }

  /** Growing a child block keeps the memory in order: nothing is lost, nothing dangles. */
  lemma GrownMem(heap: Heap, next: nat, at: map<Path, Ptr>, view: map<Path, Internal>, p: Path, key: nat,
                 n: Internal, newNode: Internal, heap': Heap)
    requires Mem(heap, next, at, view) && p in at && NewChild(view, p, key, n, newNode, next)
    requires GrownHeap(heap, next, at, view, p, key, n, newNode, heap')
    ensures Mem(heap', next + 1, MovedAt(at, p, key, next, n.vector), GrownView(view, p, key, n, newNode))
  {
    GrownAllNodes(heap, next, at, view, p, key, n, newNode, heap');
    GrownBounds(heap, next, at, view, p, key, n, newNode, heap');
    SeparateGrown(heap, next, at, view, p, key, n, newNode);
  }

  /** The heap the insertion builds is the grown heap. */
  lemma GrowthPossible(heap: Heap, next: nat, at: map<Path, Ptr>, view: map<Path, Internal>, p: Path, key: nat)
    requires Mem(heap, next, at, view) && p in at && key < 64
    ensures Allocated(heap, at[p]) && at[p].block < next && Deref(heap, at[p]) == view[p]
    ensures view[p].child.Some? ==>
              && view[p].child.value in heap && view[p].child.value != at[p].block
              && Ones(view[p].vector, key) <= |heap[view[p].child.value]|
    ensures view[p].child.None? ==> Ones(view[p].vector, key) == 0
  {
    assert NodeAt(heap, at, view, p);
    BlockSurvives(heap, next, at, view, p, p);
    OnesMono(view[p].vector, key, 64);
  }
}
