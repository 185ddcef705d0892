/**
 What addresses read after any insertion into a sound structure, whether it drops
 leaves or not.
 */
module PoptrieDrop {
  import opened Options
  import opened Addresses
  import opened PoptrieNode
  import opened PoptrieTree
  import opened PoptrieTable
  import opened PoptrieLpm

  // ----- One node, slot by slot ------------------------------------------------

  /** A run start that keeps its entry. */
  ghost predicate KeptAt(n: Internal, lo: nat, hi: nat, mask: nat, k: nat)
    requires Wf(n) && k < 64 && hi <= 64
  {
    StartAt(n, lo, hi, k) && !(lo <= k < hi && LeafAt(n, k).mask > mask)
  }

  /** The run starts among the first `p` slots. */
  ghost function Starts(n: Internal, lo: nat, hi: nat, p: nat): (c: nat)
    requires p <= 64 && hi <= 64
  {
    if p == 0 then 0 else Starts(n, lo, hi, p - 1) + if StartAt(n, lo, hi, p - 1) then 1 else 0
  }

  /** Those among them that keep their entry. */
  ghost function KeptStarts(n: Internal, lo: nat, hi: nat, mask: nat, p: nat): (c: nat)
    requires Wf(n) && p <= 64 && hi <= 64
  {
    if p == 0 then 0 else KeptStarts(n, lo, hi, mask, p - 1) + if KeptAt(n, lo, hi, mask, p - 1) then 1 else 0
  }

  /**
   What slot `k` is answered: with `r` run starts up to it, the right leaf of the
   `r`-th run start that keeps its entry, or nothing if there are fewer.
   */
  ghost predicate RankedAnswer(n: Internal, lo: nat, hi: nat, put: Leaf, k: nat, e: Option<Leaf>)
    requires Wf(n) && k < 64 && hi <= 64
  {
    var r := Starts(n, lo, hi, k + 1);
    match e
    case None => KeptStarts(n, lo, hi, put.mask, 64) < r
    case Some(leaf) => exists q :: RankedAt(n, lo, hi, put, r, q, leaf)
  }

  ghost predicate RankedAt(n: Internal, lo: nat, hi: nat, put: Leaf, r: nat, q: nat, leaf: Leaf)
    requires Wf(n) && hi <= 64
  {
    && q < 64 && KeptAt(n, lo, hi, put.mask, q) && KeptStarts(n, lo, hi, put.mask, q + 1) == r
    && leaf == if lo <= q < hi then put else LeafAt(n, q)
  }

  lemma {:induction false} StartsAreOnes(n: Internal, lo: nat, hi: nat, p: nat)
    requires p <= 64 && hi <= 64
    ensures Starts(n, lo, hi, p) == Ones(StartsUpTo(n, lo, hi, 64), p)
  {
    if p > 0 {
      StartsAreOnes(n, lo, hi, p - 1);
    }
  }

  lemma {:induction false} WrittenAreKept(n: Internal, lo: nat, hi: nat, put: Leaf, p: nat)
    requires Wf(n) && p <= 64 && hi <= 64
    ensures |Written(n, lo, hi, put, p)| == KeptStarts(n, lo, hi, put.mask, p)
  {
    if p > 0 {
      WrittenAreKept(n, lo, hi, put, p - 1);
    }
  }

  lemma {:induction false} KeptAtRank(n: Internal, lo: nat, hi: nat, put: Leaf, r: nat, p: nat) returns (q: nat)
    requires Wf(n) && p <= 64 && hi <= 64 && 1 <= r <= KeptStarts(n, lo, hi, put.mask, p)
    ensures q < p && KeptAt(n, lo, hi, put.mask, q) && KeptStarts(n, lo, hi, put.mask, q + 1) == r
  {
    if KeptStarts(n, lo, hi, put.mask, p - 1) < r {
      q := p - 1;
    } else {
      q := KeptAtRank(n, lo, hi, put, r, p - 1);
    }
  }

  lemma WrittenAtRank(n: Internal, lo: nat, hi: nat, put: Leaf, q: nat)
    requires Wf(n) && q < 64 && hi <= 64 && KeptAt(n, lo, hi, put.mask, q)
    ensures var (c, r) := (Written(n, lo, hi, put, 64), KeptStarts(n, lo, hi, put.mask, q + 1));
            1 <= r <= |c| && c[r - 1] == if lo <= q < hi then put else LeafAt(n, q)
  {
    WrittenAreKept(n, lo, hi, put, q);
    WrittenAreKept(n, lo, hi, put, q + 1);
    WrittenPrefix(n, lo, hi, put, q + 1, 64);
  }

  lemma StartOfSlot(n: Internal, lo: nat, hi: nat, k: nat)
    requires Wf(n) && k < 64 && hi <= 64 && !n.vector[k]
    ensures 1 <= Starts(n, lo, hi, k + 1)
  {
    StartsAreOnes(n, lo, hi, k + 1);
    MoreStarts(n, lo, hi, k + 1);
  }

  lemma {:induction false} MoreStarts(n: Internal, lo: nat, hi: nat, p: nat)
    requires p <= 64 && hi <= 64
    ensures Ones(n.leafvec, p) <= Ones(StartsUpTo(n, lo, hi, 64), p)
  {
    if p > 0 {
      MoreStarts(n, lo, hi, p - 1);
    }
  }

  lemma RepaintedAnswers(n: Internal, lo: nat, hi: nat, put: Leaf, k: nat)
    requires Wf(n) && k < 64 && hi <= 64 && !n.vector[k]
    ensures RankedAnswer(n, lo, hi, put, k, EntryAt(Repainted(n, lo, hi, put), k))
  {
    var r := Starts(n, lo, hi, k + 1);
    StartsAreOnes(n, lo, hi, k + 1);
    StartOfSlot(n, lo, hi, k);
    WrittenAreKept(n, lo, hi, put, 64);
    if r <= KeptStarts(n, lo, hi, put.mask, 64) {
      var q := KeptAtRank(n, lo, hi, put, r, 64);
      WrittenAtRank(n, lo, hi, put, q);
      assert RankedAt(n, lo, hi, put, r, q, if lo <= q < hi then put else LeafAt(n, q));
    }
  }

  /** In front of the first longer prefix of the range a slot is answered rightly. */
  lemma FrontAnswers(n: Internal, lo: nat, hi: nat, put: Leaf, k: nat)
    requires Wf(n) && lo < hi <= 64 && k < 64 && !n.vector[k]
    requires NoLonger(n, lo, if k + 1 < hi then k + 1 else hi, put.mask)
    ensures EntryAt(Repainted(n, lo, hi, put), k) == Some(if lo <= k < hi then put else LeafAt(n, k))
  {
    EveryRunWritten(n, lo, hi, put, k + 1);
    assert Finds(n, lo, hi, put, Written(n, lo, hi, put, k + 1), k);
    FoundFirst(n, lo, hi, put, k);
  }

  lemma FoundFirst(n: Internal, lo: nat, hi: nat, put: Leaf, k: nat)
    requires Wf(n) && hi <= 64 && k < 64 && !n.vector[k] && Finds(n, lo, hi, put, Written(n, lo, hi, put, k + 1), k)
    ensures EntryAt(Repainted(n, lo, hi, put), k) == Some(Target(n, k, lo, hi, put))
  {
    WrittenPrefix(n, lo, hi, put, k + 1, 64);
  }

  // ----- All addresses ------------------------------------------------------------

  /** The lookup of `y` ends in the node the prefix ends in. */
  ghost predicate EndsThere(view: map<Path, Internal>, dest: Address, mask: nat, y: Path)
    requires 1 <= mask <= 32 && KeyPath(y)
  {
    y[..Level(mask)] == KeysOf(dest)[..Level(mask)] && y[..Level(mask) + 1] !in view
  }

  lemma {:induction false} ReadElsewhere(mid: map<Path, Internal>, view': map<Path, Internal>, p: Path, y: Path, j: nat)
    requires TrieWf(mid) && Shaped(view') && KeyPath(y) && p in mid && |p| <= 5
    requires view'.Keys == mid.Keys && (forall q :: q in mid && q != p ==> view'[q] == mid[q])
    requires view'[p].vector == mid[p].vector && j <= 5 && y[..j] in mid
    requires y[..|p|] == p ==> y[..|p| + 1] in mid
    ensures ReadFrom(view', y, j) == Some(Find(mid, y, j))
    decreases 6 - j
  {
    FindStep(mid, y, j);
    assert NodeShaped(view', y[..j]);
    if mid[y[..j]].vector[y[j]] {
      ReadElsewhere(mid, view', p, y, j + 1);
    } else {
      assert NodeOk(mid, y[..j]);
      SlotExists(mid[y[..j]], y[j]);
    }
  }

  /** The node in which the prefix ends, its slots, and the node as it was before it was painted. */
  ghost predicate EndNodeIs(view: map<Path, Internal>, dest: Address, mask: nat, n: Internal, lo: nat, hi: nat)
    requires TrieWf(view) && 1 <= mask <= 32
  {
    && Wf(n) && lo < hi <= 64
    && (var p: Path := KeysOf(dest)[..Level(mask)]; if p in view then n == view[p] else OneRun(n))
    && forall y :: KeyPath(y) && EndsThere(view, dest, mask, y) ==>
         var k := y[Level(mask)];
         !n.vector[k] && LeafAt(n, k) == Lookup(view, y) && (Under(dest, mask, y) <==> lo <= k < hi)
  }

  /** What every address reads after an insertion. */
  ghost predicate ReadsAfter(view: map<Path, Internal>, view': map<Path, Internal>, dest: Address, mask: nat,
                             leaf: Leaf, n: Internal, lo: nat, hi: nat)
    requires TrieWf(view) && Shaped(view') && 1 <= mask <= 32
  {
    && EndNodeIs(view, dest, mask, n, lo, hi)
    && forall y :: KeyPath(y) ==>
         if EndsThere(view, dest, mask, y) then RankedAnswer(n, lo, hi, leaf, y[Level(mask)], Read(view', y))
         else Read(view', y) == Some(Lookup(view, y))
  }

  lemma EndNodeOf(view: map<Path, Internal>, mid: map<Path, Internal>, net: Address, mask: nat, lo: nat, hi: nat)
    requires TrieWf(view) && TrieWf(mid) && 1 <= mask <= 32 && Clear(net, 32 - mask)
    requires mid.Keys == view.Keys + SpineTo(net, Level(mask)) && SameLookups(view, mid)
    requires SlotsOf(net, mask, KeysOf(net)[..Level(mask)], lo, hi) && SameOrNew(view, mid, KeysOf(net)[..Level(mask)])
    ensures EndNodeIs(view, net, mask, mid[KeysOf(net)[..Level(mask)]], lo, hi)
  {
    var (l, p) := (Level(mask), KeysOf(net)[..Level(mask)]);
    EndNode(view, mid, net, mask);
    forall y | KeyPath(y) && EndsThere(view, net, mask, y)
      ensures var k := y[l]; !mid[p].vector[k] && LeafAt(mid[p], k) == Lookup(view, y)
      ensures Under(net, mask, y) <==> lo <= y[l] < hi
    {
      OffSpine(view, mid, net, l, y[..l + 1]);
      EndsAt(mid, y, l);
      SlotsAreUnder(net, mask, p, lo, hi, y);
    }
  }

  lemma ReadThere(view': map<Path, Internal>, p: Path, y: Path)
    requires Shaped(view') && KeyPath(y) && p in view' && |p| <= 5 && y[..|p|] == p && y[..|p| + 1] !in view'
    ensures Read(view', y) == EntryAt(view'[p], y[|p|])
  {
    assert NodeShaped(view', p);
    assert p + [y[|p|]] == y[..|p| + 1];
    ReadPasses(view', y, |p|);
  }

  lemma PutReadsNetwork(view: map<Path, Internal>, mid: map<Path, Internal>, view': map<Path, Internal>, net: Address,
                        mask: nat, leaf: Leaf) returns (lo: nat, hi: nat)
    requires TrieWf(view) && 1 <= mask <= 32 && Clear(net, 32 - mask) && leaf.mask == mask
    requires RepaintedFrom(view, mid, view', net, mask, leaf)
    ensures Shaped(view') && KeysOf(net)[..Level(mask)] in mid
    ensures ReadsAfter(view, view', net, mask, leaf, mid[KeysOf(net)[..Level(mask)]], lo, hi)
    ensures view'[KeysOf(net)[..Level(mask)]] == Repainted(mid[KeysOf(net)[..Level(mask)]], lo, hi, leaf)
    ensures view'.Keys == mid.Keys == view.Keys + SpineTo(net, Level(mask))
  {
    var (l, p) := (Level(mask), KeysOf(net)[..Level(mask)]);
    lo, hi := KeyAt(net, l), KeyAt(net, l) + Pow2(6 * l + 6 - mask);
    PutShaped(view, mid, view', net, mask, leaf);
    EndNodeOf(view, mid, net, mask, lo, hi);
    assert view'.Keys == mid.Keys;
    ReadsAll(view, mid, view', net, mask, leaf, p, lo, hi);
  }

  lemma ReadsAll(view: map<Path, Internal>, mid: map<Path, Internal>, view': map<Path, Internal>, net: Address,
                 mask: nat, leaf: Leaf, p: Path, lo: nat, hi: nat)
    requires TrieWf(view) && TrieWf(mid) && Shaped(view') && 1 <= mask <= 32 && SameLookups(view, mid)
    requires mid.Keys == view.Keys + SpineTo(net, Level(mask)) && p == KeysOf(net)[..Level(mask)] && p in mid
    requires NodeOk(mid, p) && hi <= 64 && view'.Keys == mid.Keys && view' == mid[p := Repainted(mid[p], lo, hi, leaf)]
    requires EndNodeIs(view, net, mask, mid[p], lo, hi)
    ensures ReadsAfter(view, view', net, mask, leaf, mid[p], lo, hi)
  {
    forall y | KeyPath(y)
      ensures if EndsThere(view, net, mask, y) then RankedAnswer(mid[p], lo, hi, leaf, y[|p|], Read(view', y))
              else Read(view', y) == Some(Lookup(view, y))
    {
      OffSpine(view, mid, net, |p|, y[..|p| + 1]);
      ReadsOne(mid, view', p, lo, hi, leaf, y);
    }
  }

  /** One address, by the node in which its lookup ends. */
  lemma ReadsOne(mid: map<Path, Internal>, view': map<Path, Internal>, p: Path, lo: nat, hi: nat, leaf: Leaf, y: Path)
    requires TrieWf(mid) && Shaped(view') && KeyPath(y) && p in mid && |p| <= 5 && hi <= 64 && NodeOk(mid, p)
    requires view'.Keys == mid.Keys && view' == mid[p := Repainted(mid[p], lo, hi, leaf)]
    ensures if y[..|p|] == p && y[..|p| + 1] !in mid
            then !mid[p].vector[y[|p|]] && RankedAnswer(mid[p], lo, hi, leaf, y[|p|], Read(view', y))
            else Read(view', y) == Some(Lookup(mid, y))
  {
    if y[..|p|] == p && y[..|p| + 1] !in mid {
      EndsAt(mid, y, |p|);
      ReadThere(view', p, y);
      RepaintedAnswers(mid[p], lo, hi, leaf, y[|p|]);
    } else {
      assert y[..0] == [];
      ReadElsewhere(mid, view', p, y, 0);
    }
  }

  /** Nothing here tells the two prefixes apart. */
  ghost predicate SamePrefix(view: map<Path, Internal>, dest: Address, net: Address, mask: nat)
    requires 1 <= mask <= 32
  {
    && KeysOf(dest)[..Level(mask)] == KeysOf(net)[..Level(mask)]
    && forall y :: KeyPath(y) ==>
         && (EndsThere(view, dest, mask, y) <==> EndsThere(view, net, mask, y))
         && (Under(dest, mask, y) <==> Under(net, mask, y))
  }

  /** The prefix need not be cleared behind its length. */
  lemma SameEnds(view: map<Path, Internal>, view': map<Path, Internal>, dest: Address, mask: nat, leaf: Leaf)
    requires TrieWf(view) && 1 <= mask <= 32
    ensures SamePrefix(view, dest, Network(dest, mask), mask)
  {
    NetworkMeaning(view, view', dest, mask, leaf);
    NetworkUnder(dest, mask);
  }

  lemma SameReads(view: map<Path, Internal>, view': map<Path, Internal>, dest: Address, net: Address, mask: nat,
                  leaf: Leaf, n: Internal, lo: nat, hi: nat)
    requires TrieWf(view) && Shaped(view') && 1 <= mask <= 32 && SamePrefix(view, dest, net, mask)
    requires ReadsAfter(view, view', net, mask, leaf, n, lo, hi)
    ensures ReadsAfter(view, view', dest, mask, leaf, n, lo, hi)
  {
  }

  /**
   What every address reads after any insertion into a sound structure.  One whose
   lookup ends in another node reads what it read.  In the node of the prefix, `n`
   before, a slot reads the right leaf of the run start of its rank among those
   that keep their entry, or outside the array if there are fewer.
   */
  lemma PutReadsExactly(view: map<Path, Internal>, view': map<Path, Internal>, dest: Address, mask: nat, leaf: Leaf)
    returns (n: Internal, lo: nat, hi: nat)
    requires TrieWf(view) && 1 <= mask <= 32 && leaf.mask == mask && Puts(view, view', dest, mask, leaf)
    ensures Shaped(view') && ReadsAfter(view, view', dest, mask, leaf, n, lo, hi)
  {
    var net := Network(dest, mask);
    NetworkAgrees(dest, mask, dest);
    var mid :| RepaintedFrom(view, mid, view', net, mask, leaf);
    lo, hi := PutReadsNetwork(view, mid, view', net, mask, leaf);
    n := mid[KeysOf(net)[..Level(mask)]];
    SameEnds(view, view', dest, mask, leaf);
    SameReads(view, view', dest, net, mask, leaf, n, lo, hi);
  }

  /** No slot under the prefix up to that of `y` holds a longer prefix. */
  ghost predicate FrontClear(view: map<Path, Internal>, dest: Address, mask: nat, y: Path)
    requires TrieWf(view) && 1 <= mask <= 32 && KeyPath(y)
  {
    forall z :: KeyPath(z) && EndsThere(view, dest, mask, z) && Under(dest, mask, z) && z[Level(mask)] <= y[Level(mask)]
                ==> Lookup(view, z).mask <= mask
  }

  lemma FrontInNode(view: map<Path, Internal>, mid: map<Path, Internal>, net: Address, mask: nat, lo: nat, hi: nat,
                    y: Path)
    requires TrieWf(view) && TrieWf(mid) && 1 <= mask <= 32 && KeyPath(y) && KeysOf(net)[..Level(mask)] in mid
    requires mid.Keys == view.Keys + SpineTo(net, Level(mask)) && FrontClear(view, net, mask, y)
    requires EndNodeIs(view, net, mask, mid[KeysOf(net)[..Level(mask)]], lo, hi)
    ensures var k := y[Level(mask)];
            NoLonger(mid[KeysOf(net)[..Level(mask)]], lo, if k + 1 < hi then k + 1 else hi, mask)
  {
    var l, k := Level(mask), y[Level(mask)];
    var p: Path := KeysOf(net)[..l];
    forall j | lo <= j < (if k + 1 < hi then k + 1 else hi) && !mid[p].vector[j]
      ensures LeafAt(mid[p], j).mask <= mask
    {
      WfIsShaped(mid);
      var z := SlotPath(mid, p, j);
      assert NodeOk(mid, p);
      assert p + [j] == z[..l + 1];
      OffSpine(view, mid, net, l, z[..l + 1]);
      assert EndsThere(view, net, mask, z);
    }
  }

  lemma FrontNetwork(view: map<Path, Internal>, mid: map<Path, Internal>, view': map<Path, Internal>, net: Address,
                     mask: nat, leaf: Leaf, y: Path)
    requires TrieWf(view) && 1 <= mask <= 32 && Clear(net, 32 - mask) && leaf.mask == mask && KeyPath(y)
    requires RepaintedFrom(view, mid, view', net, mask, leaf)
    requires EndsThere(view, net, mask, y) && FrontClear(view, net, mask, y)
    ensures Shaped(view') && Read(view', y) == Some(if Under(net, mask, y) then leaf else Lookup(view, y))
  {
    var (l, p) := (Level(mask), KeysOf(net)[..Level(mask)]);
    var lo, hi := PutReadsNetwork(view, mid, view', net, mask, leaf);
    FrontInNode(view, mid, net, mask, lo, hi, y);
    FrontAnswers(mid[p], lo, hi, leaf, y[l]);
    OffSpine(view, mid, net, l, y[..l + 1]);
    ReadThere(view', p, y);
  }

  /** Even if leaves are dropped, every address in front of the first of them is answered rightly. */
  lemma FrontIsRight(view: map<Path, Internal>, view': map<Path, Internal>, dest: Address, mask: nat, leaf: Leaf,
                     y: Path)
    requires TrieWf(view) && 1 <= mask <= 32 && leaf.mask == mask && Puts(view, view', dest, mask, leaf) && KeyPath(y)
    requires EndsThere(view, dest, mask, y) && FrontClear(view, dest, mask, y)
    ensures Shaped(view') && Read(view', y) == Some(if Under(dest, mask, y) then leaf else Lookup(view, y))
  {
    var net := Network(dest, mask);
    NetworkAgrees(dest, mask, dest);
    var mid :| RepaintedFrom(view, mid, view', net, mask, leaf);
    SameEnds(view, view', dest, mask, leaf);
    FrontNetwork(view, mid, view', net, mask, leaf, y);
  }
}
