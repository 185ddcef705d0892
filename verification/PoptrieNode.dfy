/**
 One poptrie node: 64 slots, each either a child or a leaf.  `vector` marks the
 children, `leafvec` the slots where a new run of equal leaves starts, and
 `leaf` holds one entry per run.
 */
module PoptrieNode {
  import opened Options
  import opened Addresses

  type Bits = b: seq<bool> | |b| == 64 witness seq(64, i => false)

  datatype Leaf = Leaf(iface: nat, mask: nat)

  datatype Internal = Internal(leafvec: Bits, vector: Bits, child: Option<nat>, leaf: seq<Leaf>)

  /** The number of set bits among the first `n`. */
  function Ones(b: seq<bool>, n: nat): (c: nat)
    requires n <= |b|
    ensures c <= n
  {
    if n == 0 then 0 else Ones(b, n - 1) + if b[n - 1] then 1 else 0
  }

  lemma {:induction false} OnesMono(b: seq<bool>, i: nat, j: nat)
    requires i <= j <= |b|
    ensures Ones(b, i) <= Ones(b, j) <= Ones(b, i) + (j - i)
    ensures (exists s :: i <= s < j && b[s]) ==> Ones(b, i) < Ones(b, j)
    decreases j
  {
    if i < j {
      OnesMono(b, i, j - 1);
    }
  }

  lemma {:induction false} OnesFrame(b: seq<bool>, c: seq<bool>, n: nat)
    requires n <= |b| && n <= |c| && forall i :: 0 <= i < n ==> b[i] == c[i]
    ensures Ones(b, n) == Ones(c, n)
  {
    if n > 0 {
      OnesFrame(b, c, n - 1);
    }
  }

  lemma {:induction false} OnesSame(b: seq<bool>, c: seq<bool>, m: nat, n: nat)
    requires m <= n <= |b| == |c| && forall i :: m <= i < n ==> b[i] == c[i]
    ensures Ones(b, n) - Ones(b, m) == Ones(c, n) - Ones(c, m)
  {
    if m < n {
      OnesSame(b, c, m, n - 1);
    }
  }

  // ----- Well-formed nodes -----------------------------------------------

  /** Children and run starts are disjoint, every leaf slot belongs to a run, every run has its entry. */
  ghost predicate Wf(n: Internal) {
    && (forall k :: 0 <= k < 64 ==> !(n.vector[k] && n.leafvec[k]))
    && (forall k :: 0 <= k < 64 && !n.vector[k] ==> Ones(n.leafvec, k + 1) >= 1)
    && |n.leaf| == Ones(n.leafvec, 64)
  }

  /** The leaf of a slot that is not a child. */
  function Slot(n: Internal, k: nat): Leaf
    requires k < 64 && 1 <= Ones(n.leafvec, k + 1) <= |n.leaf|
  {
    n.leaf[Ones(n.leafvec, k + 1) - 1]
  }

  lemma SlotExists(n: Internal, k: nat)
    requires Wf(n) && k < 64 && !n.vector[k]
    ensures 1 <= Ones(n.leafvec, k + 1) <= |n.leaf|
  {
    OnesMono(n.leafvec, k + 1, 64);
  }

  ghost function LeafAt(n: Internal, k: nat): Leaf
    requires Wf(n) && k < 64 && !n.vector[k]
  {
    SlotExists(n, k);
    Slot(n, k)
  }

  /** The aligned block of keys around `k` that share its first `w` bits starts here. */
  function BlockStart(k: nat, w: nat): (s: nat)
    requires k < 64 && w <= 6
    ensures s <= k
  {
    DblShr(k, 6 - w);
    Dbl(Shr(k, 6 - w), 6 - w)
  }

  ghost predicate StartWithin(n: Internal, lo: nat, k: nat)
    requires k < 64
  {
    exists s :: lo <= s <= k && n.leafvec[s]
  }

  /** A leaf that belongs to this node covers whole slots, and its run starts inside the range of its own prefix. */
  ghost predicate Placed(n: Internal, depth: nat, k: nat)
    requires Wf(n) && k < 64 && !n.vector[k]
  {
    var m := LeafAt(n, k).mask;
    && m <= 6 * depth + 6
    && (m > 6 * depth ==> StartWithin(n, BlockStart(k, m - 6 * depth), k))
  }

  ghost predicate AllPlaced(n: Internal, depth: nat)
    requires Wf(n)
  {
    forall k :: 0 <= k < 64 && !n.vector[k] ==> Placed(n, depth, k)
  }

  // ----- Rank ------------------------------------------------------------

  /** The bit loop shared by lookup and insertion: how many runs and how many children up to `key`. */
  method Rank(n: Internal, key: nat) returns (runs: nat, children: nat, bit: bool, lbit: bool)
    requires key < 64 && forall k :: 0 <= k < 64 ==> !(n.vector[k] && n.leafvec[k])
    ensures runs == Ones(n.leafvec, key + 1) && children == Ones(n.vector, key + 1)
    ensures bit == n.vector[key] && lbit == n.leafvec[key]
  {
    runs, children := 0, 0;
    for i := 0 to key
      invariant runs == Ones(n.leafvec, i) && children == Ones(n.vector, i)
    {
      if n.vector[i] {
        children := children + 1;
      } else if n.leafvec[i] {
        runs := runs + 1;
      }
    }
    bit, lbit := n.vector[key], n.leafvec[key];
    if bit {
      children := children + 1;
    } else if lbit {
      runs := runs + 1;
    }
  }

  method CountOneBit(b: Bits) returns (counter: nat)
    ensures counter == Ones(b, 64)
  {
    counter := 0;
    for i := 0 to 64
      invariant counter == Ones(b, i)
    {
      if b[i] {
        counter := counter + 1;
      }
    }
  }

  // ----- Turning a leaf slot into a child --------------------------------

  /** `n'` is `n` with slot `key` handed over to a child and every other leaf slot as before. */
  ghost predicate MadeRoom(n: Internal, n': Internal, key: nat)
    requires Wf(n) && key < 64
  {
    && n'.vector == n.vector[key := true]
    && Wf(n')
    && (forall k :: 0 <= k < 64 && k != key && !n.vector[k] ==> LeafAt(n', k) == LeafAt(n, k))
  }

  /** Run starts stay where they are, except that of `key`, which moves ahead if its run goes on. */
  ghost predicate StartsKept(n: Internal, n': Internal, key: nat)
    requires key < 64
  {
    && (forall s :: 0 <= s < 64 && s != key && n.leafvec[s] ==> n'.leafvec[s])
    && (n.leafvec[key] ==> forall k :: key < k < 64 && !n.vector[k] ==> StartWithin(n', key + 1, k))
  }

  lemma RoomKeepsRun(n: Internal, key: nat)
    requires Wf(n) && key < 64 && !n.vector[key] && !n.leafvec[key]
    ensures var n' := n.(vector := n.vector[key := true]);
            MadeRoom(n, n', key) && StartsKept(n, n', key)
  {
    var n' := n.(vector := n.vector[key := true]);
    assert Wf(n');
  }

  lemma MovedStart(b: Bits, key: nat, next: nat, j: nat)
    requires key < next < 64 && b[key] && !b[next] && j <= 64
    ensures Ones(b[key := false][next := true], j) == Ones(b, j) - if key < j <= next then 1 else 0
  {
    var c := b[key := false][next := true];
    if j <= key {
      OnesFrame(b, c, j);
    } else {
      OnesFrame(b, c, key);
      if j <= next {
        OnesSame(b, c, key + 1, j);
      } else {
        OnesSame(b, c, key + 1, next);
        OnesSame(b, c, next + 1, j);
      }
    }
  }

  lemma ClearedStart(b: Bits, key: nat, j: nat)
    requires key < 64 && b[key] && j <= 64
    ensures Ones(b[key := false], j) == Ones(b, j) - if key < j then 1 else 0
  {
    var c := b[key := false];
    if j <= key {
      OnesFrame(b, c, j);
    } else {
      OnesFrame(b, c, key);
      OnesSame(b, c, key + 1, j);
    }
  }

  /** The run of `key` goes on at `next`, so its start moves there. */
  lemma RoomMovesStart(n: Internal, key: nat, next: nat)
    requires Wf(n) && key < next < 64 && !n.vector[key] && n.leafvec[key]
    requires !n.vector[next] && !n.leafvec[next] && forall j :: key < j < next ==> n.vector[j]
    ensures var n' := n.(vector := n.vector[key := true], leafvec := n.leafvec[key := false][next := true]);
            MadeRoom(n, n', key) && StartsKept(n, n', key)
  {
    var n' := n.(vector := n.vector[key := true], leafvec := n.leafvec[key := false][next := true]);
    forall j | 0 <= j <= 64
      ensures Ones(n'.leafvec, j) == Ones(n.leafvec, j) - if key < j <= next then 1 else 0
    {
      MovedStart(n.leafvec, key, next, j);
    }
    assert n'.leafvec[next];
    assert Wf(n');
  }

  function WithoutRun(n: Internal, key: nat, runs: nat): Internal
    requires key < 64 && 1 <= runs <= |n.leaf|
  {
    n.(vector := n.vector[key := true], leafvec := n.leafvec[key := false], leaf := n.leaf[..runs - 1] + n.leaf[runs..])
  }

  lemma DroppedSlot(n: Internal, key: nat, runs: nat, k: nat)
    requires key < 64 && n.leafvec[key] && 1 <= runs == Ones(n.leafvec, key + 1) <= |n.leaf|
    requires k < 64 && k != key && 1 <= Ones(n.leafvec, k + 1) <= |n.leaf|
    requires key < k ==> StartWithin(n, key + 1, k)
    ensures var n' := WithoutRun(n, key, runs);
            1 <= Ones(n'.leafvec, k + 1) <= |n'.leaf| && Slot(n', k) == Slot(n, k)
  {
    ClearedStart(n.leafvec, key, k + 1);
    if key < k {
      OnesMono(n.leafvec, key + 1, k + 1);
    } else {
      OnesMono(n.leafvec, k + 1, key);
    }
  }

  lemma RunEnds(n: Internal, key: nat, i: nat)
    requires key < i <= 64 && forall j :: key < j < i ==> n.vector[j]
    requires i < 64 ==> n.leafvec[i]
    ensures forall k :: key < k < 64 && !n.vector[k] ==> StartWithin(n, key + 1, k)
  {
    forall k | key < k < 64 && !n.vector[k]
      ensures StartWithin(n, key + 1, k)
    {
      assert i <= k && n.leafvec[i];
    }
  }

  /** `key` was its whole run, so the run disappears. */
  lemma RoomDropsRun(n: Internal, key: nat, runs: nat)
    requires Wf(n) && key < 64 && !n.vector[key] && n.leafvec[key] && runs == Ones(n.leafvec, key + 1)
    requires forall k :: key < k < 64 && !n.vector[k] ==> StartWithin(n, key + 1, k)
    ensures 1 <= runs <= |n.leaf|
    ensures MadeRoom(n, WithoutRun(n, key, runs), key) && StartsKept(n, WithoutRun(n, key, runs), key)
  {
    SlotExists(n, key);
    var n' := WithoutRun(n, key, runs);
    ClearedStart(n.leafvec, key, 64);
    forall k | 0 <= k < 64 && k != key && !n.vector[k]
      ensures 1 <= Ones(n'.leafvec, k + 1) <= |n'.leaf|
      ensures Slot(n', k) == LeafAt(n, k)
    {
      SlotExists(n, k);
      DroppedSlot(n, key, runs, k);
    }
    assert Wf(n');
    forall k | key < k < 64 && !n.vector[k]
      ensures StartWithin(n', key + 1, k)
    {
      var s :| key + 1 <= s <= k && n.leafvec[s];
      assert n'.leafvec[s];
    }
  }

  /** The next slot after `key` that is not a child, or 64. */
  method NextLeafSlot(n: Internal, key: nat) returns (i: nat)
    requires key < 64
    ensures key < i <= 64 && (forall j :: key < j < i ==> n.vector[j]) && (i < 64 ==> !n.vector[i])
  {
    i := key + 1;
    while i < 64 && n.vector[i]
      invariant key < i <= 64 && forall j :: key < j < i ==> n.vector[j]
    {
      i := i + 1;
    }
  }

  /** The slot becomes a child, and the leaves are rearranged around it. */
  method MakeRoom(n: Internal, key: nat, runs: nat, lbit: bool) returns (n': Internal, dropped: bool)
    requires Wf(n) && key < 64 && !n.vector[key]
    requires runs == Ones(n.leafvec, key + 1) && lbit == n.leafvec[key]
    ensures MadeRoom(n, n', key) && StartsKept(n, n', key) && n'.child == n.child
    ensures |n'.leaf| == |n.leaf| - if dropped then 1 else 0
  {
    if !lbit {
      RoomKeepsRun(n, key);
      return n.(vector := n.vector[key := true]), false;
    }
    var i := NextLeafSlot(n, key);
    if i < 64 && !n.leafvec[i] {
      RoomMovesStart(n, key, i);
      return n.(vector := n.vector[key := true], leafvec := n.leafvec[key := false][i := true]), false;
    }
    RunEnds(n, key, i);
    RoomDropsRun(n, key, runs);
    return n.(vector := n.vector[key := true], leafvec := n.leafvec[key := false],
              leaf := n.leaf[..runs - 1] + n.leaf[runs..]), true;
  }

  // ----- Writing a range of slots ----------------------------------------

  ghost function Target(n: Internal, k: nat, lo: nat, hi: nat, put: Leaf): Leaf
    requires Wf(n) && k < 64 && !n.vector[k]
  {
    if lo <= k < hi then put else LeafAt(n, k)
  }

  predicate AllChildren(n: Internal, from: nat, k: nat)
    requires k <= 64
  {
    forall j :: from <= j < k ==> n.vector[j]
  }

  /** The run starts after the loops: the old ones, the first leaf slot of the range, and the first one behind it. */
  ghost predicate StartAt(n: Internal, lo: nat, hi: nat, k: nat)
    requires k < 64 && hi <= 64
  {
    || n.leafvec[k]
    || (lo <= k < hi && !n.vector[k] && AllChildren(n, lo, k))
    || (hi <= k && !n.vector[k] && AllChildren(n, hi, k) && !AllChildren(n, lo, hi))
  }

  /** A run of the range that starts with a longer prefix keeps its bit, and loses its entry. */
  ghost predicate DropsAt(n: Internal, lo: nat, hi: nat, mask: nat, k: nat)
    requires Wf(n) && k < 64 && hi <= 64
  {
    StartAt(n, lo, hi, k) && lo <= k < hi && LeafAt(n, k).mask > mask
  }

  /** The entries written when the loops have passed the first `p` slots. */
  ghost function Written(n: Internal, lo: nat, hi: nat, put: Leaf, p: nat): seq<Leaf>
    requires Wf(n) && p <= 64 && hi <= 64
  {
    if p == 0 then []
    else
      Written(n, lo, hi, put, p - 1) +
      if StartAt(n, lo, hi, p - 1) && !DropsAt(n, lo, hi, put.mask, p - 1) then [Target(n, p - 1, lo, hi, put)] else []
  }

  /** The run starts when the loops have passed the first `p` slots. */
  ghost function StartsUpTo(n: Internal, lo: nat, hi: nat, p: nat): (lv: Bits)
    requires hi <= 64
  {
    seq(64, k requires 0 <= k < 64 => if k < p then StartAt(n, lo, hi, k) else n.leafvec[k])
  }

  /** What the loops leave behind, whatever the node holds. */
  ghost function Repainted(n: Internal, lo: nat, hi: nat, put: Leaf): (n': Internal)
    requires Wf(n) && hi <= 64
  {
    n.(leafvec := StartsUpTo(n, lo, hi, 64), leaf := Written(n, lo, hi, put, 64))
  }

  /** No leaf slot of the range holds a longer prefix. */
  ghost predicate NoLonger(n: Internal, lo: nat, p: nat, mask: nat)
    requires Wf(n) && p <= 64
  {
    forall k :: lo <= k < p && !n.vector[k] ==> LeafAt(n, k).mask <= mask
  }

  /** `n'` is `n` with every leaf slot of the range set to `put` and all else as before. */
  ghost predicate Painted(n: Internal, n': Internal, lo: nat, hi: nat, put: Leaf)
    requires Wf(n)
  {
    && n'.vector == n.vector
    && Wf(n')
    && (forall s :: 0 <= s < 64 && n.leafvec[s] ==> n'.leafvec[s])
    && (forall k :: lo <= k < hi <= 64 && !n.vector[k] ==> StartWithin(n', lo, k))
    && forall k :: 0 <= k < 64 && !n.vector[k] ==> LeafAt(n', k) == Target(n, k, lo, hi, put)
  }

  /** The last leaf slot in front of one that starts no run. */
  lemma {:induction false} LeafBefore(n: Internal, p: nat, q: nat)
    returns (r: nat)
    requires Wf(n) && q <= p < 64 && !n.vector[p] && !n.leafvec[p] && AllChildren(n, q, p)
    ensures r < q && !n.vector[r] && AllChildren(n, r + 1, p) && LeafAt(n, r) == LeafAt(n, p)
    decreases q
  {
    OnesSame(n.leafvec, seq(64, i => false), q, p + 1);
    NoneSet(q, p + 1);
    if !n.vector[q - 1] {
      r := q - 1;
    } else {
      r := LeafBefore(n, p, q - 1);
    }
  }

  lemma {:induction false} NoneSet(i: nat, j: nat)
    requires i <= j <= 64
    ensures Ones(seq(64, i => false), i) == Ones(seq(64, i => false), j) == 0
  {
    if j > 0 {
      NoneSet(if i < j then i else j - 1, j - 1);
    }
  }

  /** A leaf slot at which no run starts shares its target with the leaf slot before it. */
  lemma SharesTarget(n: Internal, lo: nat, hi: nat, put: Leaf, p: nat) returns (r: nat)
    requires Wf(n) && lo < hi <= 64 && p < 64 && !n.vector[p] && !StartAt(n, lo, hi, p)
    ensures r < p && !n.vector[r] && AllChildren(n, r + 1, p)
    ensures LeafAt(n, r) == LeafAt(n, p) && (lo <= r < hi <==> lo <= p < hi)
  {
    r := LeafBefore(n, p, p);
  }

  lemma NoStartsBetween(n: Internal, lo: nat, hi: nat, r: nat, p: nat)
    requires Wf(n) && hi <= 64 && r < p < 64 && AllChildren(n, r + 1, p) && !StartAt(n, lo, hi, p)
    ensures Ones(StartsUpTo(n, lo, hi, 64), r + 1) == Ones(StartsUpTo(n, lo, hi, 64), p + 1)
  {
    OnesSame(StartsUpTo(n, lo, hi, 64), seq(64, i => false), r + 1, p + 1);
    NoneSet(r + 1, p + 1);
  }

  ghost predicate Finds(n: Internal, lo: nat, hi: nat, put: Leaf, c: seq<Leaf>, k: nat)
    requires Wf(n) && hi <= 64 && k < 64 && !n.vector[k]
  {
    var r := Ones(StartsUpTo(n, lo, hi, 64), k + 1);
    1 <= r <= |c| && c[r - 1] == Target(n, k, lo, hi, put)
  }

  /** One more slot finds its target, and the slots before it still do. */
  lemma OneMoreFinds(n: Internal, lo: nat, hi: nat, put: Leaf, p: nat)
    requires Wf(n) && lo < hi <= 64 && p < 64 && NoLonger(n, lo, if p < hi then p + 1 else hi, put.mask)
    requires |Written(n, lo, hi, put, p)| == Ones(StartsUpTo(n, lo, hi, 64), p)
    requires forall k :: 0 <= k < p && !n.vector[k] ==> Finds(n, lo, hi, put, Written(n, lo, hi, put, p), k)
    ensures |Written(n, lo, hi, put, p + 1)| == Ones(StartsUpTo(n, lo, hi, 64), p + 1)
    ensures !n.vector[p] ==> Finds(n, lo, hi, put, Written(n, lo, hi, put, p + 1), p)
  {
    assert StartsUpTo(n, lo, hi, 64)[p] == StartAt(n, lo, hi, p);
    assert !DropsAt(n, lo, hi, put.mask, p);
    if !n.vector[p] && !StartAt(n, lo, hi, p) {
      var r := SharesTarget(n, lo, hi, put, p);
      NoStartsBetween(n, lo, hi, r, p);
      assert Finds(n, lo, hi, put, Written(n, lo, hi, put, p), r);
    }
  }

  lemma StillFinds(n: Internal, lo: nat, hi: nat, put: Leaf, p: nat, k: nat)
    requires Wf(n) && hi <= 64 && p < 64 && k < 64 && !n.vector[k]
               && Finds(n, lo, hi, put, Written(n, lo, hi, put, p), k)
    ensures Finds(n, lo, hi, put, Written(n, lo, hi, put, p + 1), k)
  {
    assert Written(n, lo, hi, put, p) <= Written(n, lo, hi, put, p + 1);
  }

  /** In front of the first longer prefix of the range, every leaf slot finds its target. */
  lemma {:induction false} EveryRunWritten(n: Internal, lo: nat, hi: nat, put: Leaf, p: nat)
    requires Wf(n) && lo < hi <= 64 && p <= 64 && NoLonger(n, lo, if p < hi then p else hi, put.mask)
    ensures |Written(n, lo, hi, put, p)| == Ones(StartsUpTo(n, lo, hi, 64), p)
    ensures forall k :: 0 <= k < p && !n.vector[k] ==> Finds(n, lo, hi, put, Written(n, lo, hi, put, p), k)
  {
    if p > 0 {
      EveryRunWritten(n, lo, hi, put, p - 1);
      OneMoreFinds(n, lo, hi, put, p - 1);
      forall k | 0 <= k < p - 1 && !n.vector[k]
        ensures Finds(n, lo, hi, put, Written(n, lo, hi, put, p), k)
      {
        StillFinds(n, lo, hi, put, p - 1, k);
      }
    }
  }

  /** What is written in front of slot `p` comes first. */
  lemma {:induction false} WrittenPrefix(n: Internal, lo: nat, hi: nat, put: Leaf, p: nat, q: nat)
    requires Wf(n) && hi <= 64 && p <= q <= 64
    ensures Written(n, lo, hi, put, p) <= Written(n, lo, hi, put, q)
    decreases q
  {
    if p < q {
      WrittenPrefix(n, lo, hi, put, p, q - 1);
    }
  }

  lemma {:induction false} FirstLeafSlot(n: Internal, lo: nat, k: nat) returns (s: nat)
    requires lo <= k < 64 && !n.vector[k]
    ensures lo <= s <= k && !n.vector[s] && AllChildren(n, lo, s)
  {
    if AllChildren(n, lo, k) {
      s := k;
    } else {
      var j :| lo <= j < k && !n.vector[j];
      s := FirstLeafSlot(n, lo, j);
    }
  }

  lemma RepaintedPaints(n: Internal, lo: nat, hi: nat, put: Leaf)
    requires Wf(n) && lo < hi <= 64 && NoLonger(n, lo, hi, put.mask)
    ensures Painted(n, Repainted(n, lo, hi, put), lo, hi, put)
  {
    var n' := Repainted(n, lo, hi, put);
    EveryRunWritten(n, lo, hi, put, 64);
    forall k | 0 <= k < 64 && !n.vector[k]
      ensures 1 <= Ones(n'.leafvec, k + 1) <= |n'.leaf| && Slot(n', k) == Target(n, k, lo, hi, put)
    {
      assert Finds(n, lo, hi, put, n'.leaf, k);
    }
    assert Wf(n');
    forall k | lo <= k < hi && !n.vector[k]
      ensures StartWithin(n', lo, k)
    {
      var s := FirstLeafSlot(n, lo, k);
      assert n'.leafvec[s];
    }
  }

  /** Entries are missing exactly for the runs dropped so far. */
  lemma {:induction false} EntriesMissing(n: Internal, lo: nat, hi: nat, put: Leaf, p: nat)
    requires Wf(n) && lo < hi <= 64 && p <= 64
    ensures |Written(n, lo, hi, put, p)| <= Ones(StartsUpTo(n, lo, hi, 64), p)
    ensures (exists k :: 0 <= k < p && DropsAt(n, lo, hi, put.mask, k)) ==>
              |Written(n, lo, hi, put, p)| < Ones(StartsUpTo(n, lo, hi, 64), p)
  {
    if p > 0 {
      EntriesMissing(n, lo, hi, put, p - 1);
    }
  }

  /** A longer prefix in the range is dropped at the start of its run, or where it enters the range. */
  lemma {:induction false} LongerIsDropped(n: Internal, lo: nat, hi: nat, mask: nat, k: nat)
    requires Wf(n) && lo <= k < hi <= 64 && !n.vector[k] && LeafAt(n, k).mask > mask
    ensures exists s :: 0 <= s < 64 && DropsAt(n, lo, hi, mask, s)
  {
    if StartAt(n, lo, hi, k) {
      assert DropsAt(n, lo, hi, mask, k);
    } else {
      var r := SharesTarget(n, lo, hi, Leaf(0, mask), k);
      LongerIsDropped(n, lo, hi, mask, r);
    }
  }

  /** With a longer prefix in the range the node has fewer entries than runs. */
  lemma RepaintedIsShort(n: Internal, lo: nat, hi: nat, put: Leaf)
    requires Wf(n) && lo < hi <= 64 && !NoLonger(n, lo, hi, put.mask)
    ensures var n' := Repainted(n, lo, hi, put); |n'.leaf| < Ones(n'.leafvec, 64)
  {
    var k :| lo <= k < hi && !n.vector[k] && LeafAt(n, k).mask > put.mask;
    LongerIsDropped(n, lo, hi, put.mask, k);
    EntriesMissing(n, lo, hi, put, 64);
  }

  /** The last run starts at a leaf slot, and every rank from there on is the number of runs. */
  lemma {:induction false} LastRunStart(b: Bits, n: nat) returns (k: nat)
    requires n <= 64 && Ones(b, n) > 0
    ensures k < n && b[k] && Ones(b, k + 1) == Ones(b, n)
  {
    if b[n - 1] {
      k := n - 1;
    } else {
      k := LastRunStart(b, n - 1);
    }
  }

  // ----- The loops --------------------------------------------------------

  /** A longer prefix in the range has its run start in the range, so its first leaf slot there is that start. */
  lemma LongerStartsInside(n: Internal, depth: nat, lo: nat, w: nat, p: nat)
    requires Wf(n) && AllPlaced(n, depth) && 1 <= w <= 6 && lo < 64 && Clear(lo, 6 - w)
    requires lo <= p < lo + Pow2(6 - w) && p < 64 && !n.vector[p] && !n.leafvec[p]
    requires forall j :: lo <= j < p ==> n.vector[j]
    ensures LeafAt(n, p).mask <= 6 * depth + w
  {
    var m := LeafAt(n, p).mask;
    assert Placed(n, depth, p);
    if m > 6 * depth + w {
      ClearFloor(lo, 6 - w, p, 6 - (m - 6 * depth));
    }
  }

  /** A run that reaches into the range from before it holds no longer prefix. */
  ghost predicate EntersShorter(n: Internal, lo: nat, hi: nat, mask: nat)
    requires Wf(n) && hi <= 64
  {
    forall p :: lo <= p < hi && !n.vector[p] && !n.leafvec[p] && (forall j :: lo <= j < p ==> n.vector[j]) ==>
      LeafAt(n, p).mask <= mask
  }

  lemma PlacedEntersShorter(n: Internal, depth: nat, lo: nat, w: nat)
    requires Wf(n) && AllPlaced(n, depth) && 1 <= w <= 6 && lo < 64 && Clear(lo, 6 - w) && lo + Pow2(6 - w) <= 64
    ensures EntersShorter(n, lo, lo + Pow2(6 - w), 6 * depth + w)
  {
    forall p | lo <= p < lo + Pow2(6 - w) && !n.vector[p] && !n.leafvec[p] && (forall j :: lo <= j < p ==> n.vector[j])
      ensures LeafAt(n, p).mask <= 6 * depth + w
    {
      LongerStartsInside(n, depth, lo, w, p);
    }
  }

  /** The entry of the run a slot is in, once the runs up to it have been counted. */
  lemma CurrentRun(n: Internal, p: nat, runs: nat)
    requires Wf(n) && p < 64 && runs == Ones(n.leafvec, p)
    ensures runs <= |n.leaf|
    ensures n.leafvec[p] ==> runs < |n.leaf| && LeafAt(n, p) == n.leaf[runs]
    ensures !n.vector[p] && !n.leafvec[p] ==> runs > 0 && LeafAt(n, p) == n.leaf[runs - 1]
  {
    OnesMono(n.leafvec, p, 64);
    if !n.vector[p] {
      LeafAtRank(n, p);
    }
  }

  lemma LeafAtRank(n: Internal, p: nat)
    requires Wf(n) && p < 64 && !n.vector[p]
    ensures var r := Ones(n.leafvec, p) + if n.leafvec[p] then 1 else 0;
            1 <= r <= |n.leaf| && LeafAt(n, p) == n.leaf[r - 1]
  {
    SlotExists(n, p);
  }

  function LastRun(n: Internal, runs: nat): Leaf
    requires runs <= |n.leaf|
  {
    if runs == 0 then Leaf(0, 0) else n.leaf[runs - 1]
  }

  /** What the three loops keep: the entries and run starts of the slots passed, and the runs read. */
  ghost predicate Scribed(n: Internal, lv: Bits, c: seq<Leaf>, lo: nat, hi: nat, put: Leaf, p: nat, runs: nat)
    requires Wf(n)
  {
    && p <= 64 && lo < hi <= 64
    && lv == StartsUpTo(n, lo, hi, p) && c == Written(n, lo, hi, put, p) && |c| <= p
    && runs == Ones(n.leafvec, p) <= |n.leaf|
  }

  lemma ScribeStart(n: Internal, lv: Bits, c: seq<Leaf>, lo: nat, hi: nat, put: Leaf, p: nat, runs: nat)
    requires Wf(n) && p < 64 && Scribed(n, lv, c, lo, hi, put, p, runs) && StartAt(n, lo, hi, p)
    ensures var runs' := Ones(n.leafvec, p + 1);
            if DropsAt(n, lo, hi, put.mask, p) then lv[p] == n.leafvec[p] &&
              (lv[p] ==> Scribed(n, lv, c, lo, hi, put, p + 1, runs'))
            else Scribed(n, lv[p := true], c + [Target(n, p, lo, hi, put)], lo, hi, put, p + 1, runs')
  {
    OnesMono(n.leafvec, p + 1, 64);
    if !DropsAt(n, lo, hi, put.mask, p) {
      assert lv[p := true] == StartsUpTo(n, lo, hi, p + 1);
    } else if lv[p] {
      assert lv == StartsUpTo(n, lo, hi, p + 1);
    }
  }

  lemma ScribeSkip(n: Internal, lv: Bits, c: seq<Leaf>, lo: nat, hi: nat, put: Leaf, p: nat, runs: nat)
    requires Wf(n) && p < 64 && Scribed(n, lv, c, lo, hi, put, p, runs) && !StartAt(n, lo, hi, p)
    ensures Scribed(n, lv, c, lo, hi, put, p + 1, runs)
  {
    assert lv == StartsUpTo(n, lo, hi, p + 1);
  }

  method CopyBefore(n: Internal, key: nat, cache: array<Leaf>, ghost hi: nat, ghost put: Leaf)
    returns (runs: nat, last: Leaf)
    requires Wf(n) && key < hi <= 64 && cache.Length == 64
    modifies cache
    ensures runs <= 64 && Scribed(n, n.leafvec, cache[..runs], key, hi, put, key, runs)
    ensures last == LastRun(n, runs)
  {
    runs, last := 0, Leaf(0, 0);
    assert n.leafvec == StartsUpTo(n, key, hi, 0);
    for i := 0 to key
      invariant runs <= i && Scribed(n, n.leafvec, cache[..runs], key, hi, put, i, runs)
      invariant last == LastRun(n, runs)
    {
      CurrentRun(n, i, runs);
      if !n.vector[i] && n.leafvec[i] {
        ScribeStart(n, n.leafvec, cache[..runs], key, hi, put, i, runs);
        last := n.leaf[runs];
        ghost var c := cache[..runs];
        cache[runs] := n.leaf[runs];
        assert cache[..runs + 1] == c + [n.leaf[runs]] && n.leafvec[i := true] == n.leafvec;
        runs := runs + 1;
      } else {
        ScribeSkip(n, n.leafvec, cache[..runs], key, hi, put, i, runs);
      }
    }
  }

  /** The loop over the range, at slot `p`. */
  ghost predicate RangeAt(n: Internal, lv: Bits, c: seq<Leaf>, p: nat, lo: nat, hi: nat, put: Leaf,
                          runs: nat, last: Leaf, first: bool)
    requires Wf(n)
  {
    && lo <= p <= hi && Scribed(n, lv, c, lo, hi, put, p, runs) && last == LastRun(n, runs)
    && (first <==> AllChildren(n, lo, p))
  }

  /** One slot of the range. */
  method RangeSlot(n: Internal, p: nat, lo: nat, ghost hi: nat, put: Leaf, lv0: Bits, runs0: nat, last0: Leaf, ci0: nat,
                   first0: bool, cache: array<Leaf>)
    returns (lv: Bits, runs: nat, last: Leaf, ci: nat, first: bool)
    requires Wf(n) && p < hi <= 64 && cache.Length == 64 && ci0 <= 64 && EntersShorter(n, lo, hi, put.mask)
    requires RangeAt(n, lv0, cache[..ci0], p, lo, hi, put, runs0, last0, first0)
    modifies cache
    ensures ci <= 64 && RangeAt(n, lv, cache[..ci], p + 1, lo, hi, put, runs, last, first)
  {
    lv, runs, last, ci, first := lv0, runs0, last0, ci0, first0;
    ghost var c := cache[..ci];
    CurrentRun(n, p, runs);
    if !n.vector[p] && (first || n.leafvec[p]) {
      ScribeStart(n, lv, c, lo, hi, put, p, runs);
      if n.leafvec[p] {
        last := n.leaf[runs];
        runs := runs + 1;
      }
      first := false;
      if put.mask >= last.mask {
        lv := lv[p := true];
        cache[ci] := put;
        ci := ci + 1;
        assert cache[..ci] == c + [put];
      }
    } else {
      ScribeSkip(n, lv, c, lo, hi, put, p, runs);
    }
  }

  method WriteRange(n: Internal, lo: nat, range: nat, put: Leaf, runs0: nat, last0: Leaf, cache: array<Leaf>)
    returns (lv: Bits, runs: nat, last: Leaf, ci: nat, first: bool)
    requires Wf(n) && range > 0 && lo + range <= 64 && EntersShorter(n, lo, lo + range, put.mask)
    requires cache.Length == 64 && runs0 <= 64
    requires Scribed(n, n.leafvec, cache[..runs0], lo, lo + range, put, lo, runs0) && last0 == LastRun(n, runs0)
    modifies cache
    ensures ci <= 64
    ensures RangeAt(n, lv, cache[..ci], lo + range, lo, lo + range, put, runs, last, first)
  {
    lv, runs, last, ci, first := n.leafvec, runs0, last0, runs0, true;
    for i := lo to lo + range
      invariant ci <= 64
      invariant RangeAt(n, lv, cache[..ci], i, lo, lo + range, put, runs, last, first)
    {
      lv, runs, last, ci, first := RangeSlot(n, i, lo, lo + range, put, lv, runs, last, ci, first, cache);
    }
  }

  /** The loop behind the range, at slot `p`. */
  ghost predicate AfterAt(n: Internal, lv: Bits, c: seq<Leaf>, p: nat, lo: nat, hi: nat, put: Leaf,
                          runs: nat, last: Leaf, first: bool)
    requires Wf(n)
  {
    && hi <= p && Scribed(n, lv, c, lo, hi, put, p, runs)
    && (first <==> AllChildren(n, hi, p) && !AllChildren(n, lo, hi))
    && (first ==> last == LastRun(n, runs))
  }

  /** One slot behind the range. */
  method AfterSlot(n: Internal, p: nat, ghost lo: nat, ghost hi: nat, ghost put: Leaf, lv0: Bits, runs0: nat,
                   last: Leaf, ci0: nat, first0: bool, cache: array<Leaf>)
    returns (lv: Bits, runs: nat, ci: nat, first: bool)
    requires Wf(n) && p < 64 && cache.Length == 64 && ci0 <= 64
    requires AfterAt(n, lv0, cache[..ci0], p, lo, hi, put, runs0, last, first0)
    modifies cache
    ensures ci <= 64 && AfterAt(n, lv, cache[..ci], p + 1, lo, hi, put, runs, last, first)
  {
    lv, runs, ci, first := lv0, runs0, ci0, first0;
    ghost var c := cache[..ci];
    CurrentRun(n, p, runs);
    if !n.vector[p] && ((first && !n.leafvec[p]) || n.leafvec[p]) {
      ScribeStart(n, lv, c, lo, hi, put, p, runs);
      var e := if n.leafvec[p] then n.leaf[runs] else last;
      runs := if n.leafvec[p] then runs + 1 else runs;
      lv := lv[p := true];
      cache[ci] := e;
      ci := ci + 1;
      assert cache[..ci] == c + [e];
    } else {
      ScribeSkip(n, lv, c, lo, hi, put, p, runs);
    }
    if !n.vector[p] {
      first := false;
    }
  }

  method CopyAfter(n: Internal, ghost lo: nat, hi: nat, ghost put: Leaf, lv0: Bits, runs0: nat, last: Leaf, ci0: nat,
                   first0: bool, cache: array<Leaf>)
    returns (lv: Bits, runs: nat, ci: nat)
    requires Wf(n) && hi <= 64 && cache.Length == 64 && ci0 <= 64
    requires AfterAt(n, lv0, cache[..ci0], hi, lo, hi, put, runs0, last, first0)
    modifies cache
    ensures ci <= 64 && Scribed(n, lv, cache[..ci], lo, hi, put, 64, runs)
  {
    lv, runs, ci := lv0, runs0, ci0;
    var first := first0;
    for i := hi to 64
      invariant ci <= 64 && AfterAt(n, lv, cache[..ci], i, lo, hi, put, runs, last, first)
    {
      lv, runs, ci, first := AfterSlot(n, i, lo, hi, put, lv, runs, last, ci, first, cache);
    }
  }

  /** The last node of an insertion: the three loops together. */
  method Paint(n: Internal, key: nat, w: nat, put: Leaf, cache: array<Leaf>, ghost depth: nat)
    returns (n': Internal, growth: int)
    requires Wf(n) && AllPlaced(n, depth) && 1 <= w <= 6 && key < 64 && Clear(key, 6 - w)
    requires put.mask == 6 * depth + w && cache.Length == 64
    modifies cache
    ensures key + Pow2(6 - w) <= 64 && n' == Repainted(n, key, key + Pow2(6 - w), put)
    ensures growth == |n'.leaf| - |n.leaf|
  {
    KeyRange(key, key, w);
    var range := Pow2(6 - w);
    PlacedEntersShorter(n, depth, key, w);
    var runs, last := CopyBefore(n, key, cache, key + range, put);
    var lv, first, ci;
    lv, runs, last, ci, first := WriteRange(n, key, range, put, runs, last, cache);
    lv, runs, ci := CopyAfter(n, key, key + range, put, lv, runs, last, ci, !first, cache);
    n' := n.(leafvec := lv, leaf := cache[..ci]);
    growth := ci as int - runs as int;
  }
}
