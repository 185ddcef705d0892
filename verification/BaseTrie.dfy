/** The one-bit trie: linked nodes, one level per address bit. */
module BaseTrie {
  import opened Options
  import opened Addresses

  type Path = seq<bool>

  /** `(bit_chk & dest) >> (32 - depth)`: the bit tested at a depth from 1 to 32. */
  function BitAt(d: Address, depth: nat): bool
    requires 1 <= depth <= 32
  {
    Shr(d, 32 - depth) % 2 == 1
  }

  function BitsOf(d: Address, n: nat): (p: Path)
    requires n <= 32
    ensures |p| == n
  {
    if n == 0 then [] else BitsOf(d, n - 1) + [BitAt(d, n)]
  }

  /** Two addresses agree on a prefix exactly when they walk the same path. */
  lemma {:induction false} AgreeIsPath(p: Address, n: nat, d: Address)
    requires n <= 32
    ensures Agree(p, n, d) <==> BitsOf(p, n) == BitsOf(d, n)
  {
    if n == 0 {
      ShrSmall(p, 32);
      ShrSmall(d, 32);
    } else {
      AgreeIsPath(p, n - 1, d);
      ShrStep(p, 32 - n);
      ShrStep(d, 32 - n);
      var a, b := Shr(p, 32 - n), Shr(d, 32 - n);
      assert a == 2 * (a / 2) + a % 2 && b == 2 * (b / 2) + b % 2;
      assert BitsOf(p, n)[..n - 1] == BitsOf(p, n - 1) && BitsOf(d, n)[..n - 1] == BitsOf(d, n - 1);
      assert BitsOf(p, n)[n - 1] == BitAt(p, n) && BitsOf(d, n)[n - 1] == BitAt(d, n);
    }
  }

  lemma ShrSmall(d: Address, n: nat)
    requires n == 32
    ensures Shr(d, n) == 0
  {
    Pow2Values();
    Pow2Sum(26, 6);
    ShrSplit(0, d, 32, 32);
  }

  lemma {:induction false} Pow2Sum(a: nat, b: nat)
    ensures Pow2(a + b) == Pow2(a) * Pow2(b)
  {
    if a > 0 {
      Pow2Sum(a - 1, b);
      assert Pow2(a + b) == 2 * Pow2(a - 1 + b);
    }
  }

  lemma {:induction false} BitsPrefix(d: Address, n: nat, m: nat)
    requires n <= m <= 32
    ensures BitsOf(d, m)[..n] == BitsOf(d, n)
  {
    if n < m {
      BitsPrefix(d, n, m - 1);
      assert BitsOf(d, m)[..n] == BitsOf(d, m - 1)[..n];
    }
  }

  class Node {
    var son0: Node?
    var son1: Node?
    var matched: bool
    var iface: nat
    var dest: Address

    constructor ()
      ensures son0 == null && son1 == null && !matched
    {
      son0, son1, matched, iface, dest := null, null, false, 0, 0;
    }

    function Son(b: bool): Node?
      reads this
    {
      if b then son1 else son0
    }
  }

  class Trie {
    const root: Node
    ghost var at: map<Path, Node>

    /** The sons of the node at `p` are the nodes one bit longer. */
    ghost predicate Linked(p: Path)
      reads this, at.Values
    {
      p in at ==>
        && at[p].son0 == (if p + [false] in at then at[p + [false]] else null)
        && at[p].son1 == (if p + [true] in at then at[p + [true]] else null)
        && (p != [] ==> p[..|p| - 1] in at)
    }

    ghost predicate Same(p: Path, q: Path)
      reads this
    {
      p in at && q in at && at[p] == at[q]
    }

    /** `at` names every node by its path, and only once. */
    ghost predicate Valid()
      reads this, at.Values
    {
      && [] in at && at[[]] == root
      && (forall p, q {:trigger Same(p, q)} :: Same(p, q) ==> p == q)
      && (forall p {:trigger Linked(p)} :: Linked(p))
    }

    lemma SonOf(p: Path, b: bool)
      requires Valid() && p in at
      ensures at[p].Son(b) == if p + [b] in at then at[p + [b]] else null
      ensures p != [] ==> p[..|p| - 1] in at
    {
      assert Linked(p);
    }

    /** The route stored at a path, if any. */
    ghost function Stored(p: Path): Option<(nat, Address)>
      reads this, at.Values
    {
      if p in at && at[p].matched then Some((at[p].iface, at[p].dest)) else None
    }

    constructor ()
      ensures Valid() && fresh(root) && at == map[[] := root]
      ensures forall p :: Stored(p) == None
    {
      root := new Node();
      new;
      at := map[[] := root];
    }

    /** Hangs a new node below `cur`. */
    method Grow(cur: Node, bit: bool, ghost p: Path) returns (n: Node)
      requires Valid() && p in at && at[p] == cur && p + [bit] !in at
      modifies this`at, cur`son0, cur`son1
      ensures fresh(n) && at == old(at)[p + [bit] := n] && Valid()
      ensures forall q :: Stored(q) == old(Stored(q))
    {
      n := new Node();
      if bit {
        cur.son1 := n;
      } else {
        cur.son0 := n;
      }
      ghost var grown := p + [bit];
      at := at[grown := n];
      forall q, r | Same(q, r)
        ensures q == r
      {
        assert old(Same(q, r)) || q == grown || r == grown;
      }
      forall q
        ensures Linked(q)
      {
        ExtensionIs(p, bit, q, false);
        ExtensionIs(p, bit, q, true);
        assert old(Linked(q));
        if q == grown {
          assert old(Linked(q + [false])) && old(Linked(q + [true]));
        } else if q in at {
          assert old(Same(p, q)) ==> p == q;
        }
      }
    }

    /** Which extension of `q` is the new path. */
    static lemma ExtensionIs(p: Path, bit: bool, q: Path, b: bool)
      ensures q + [b] == p + [bit] <==> q == p && b == bit
      ensures (q + [b])[..|q + [b]| - 1] == q && q + [b] != q && q + [b] != []
      ensures (p + [bit])[..|p + [bit]| - 1] == p && p + [bit] != []
    {
      if q + [b] == p + [bit] {
        assert (q + [b])[..|q|] == q && (p + [bit])[..|p|] == p && (q + [b])[|q|] == b && (p + [bit])[|p|] == bit;
      }
    }

    /** Walks down as far as the path exists. */
    method Seek(dest: Address, mask: nat) returns (cur: Node, depth: nat, bit: bool, got: bool)
      requires Valid() && mask <= 32
      ensures depth <= mask && BitsOf(dest, depth) in at && at[BitsOf(dest, depth)] == cur
      ensures got ==> depth == mask
      ensures !got ==> depth < mask && bit == BitAt(dest, depth + 1) && BitsOf(dest, depth + 1) !in at
    {
      depth, cur, bit, got := 0, root, false, true;
      while depth < mask
        invariant depth <= mask && got
        invariant BitsOf(dest, depth) in at && at[BitsOf(dest, depth)] == cur
      {
        bit := BitAt(dest, depth + 1);
        SonOf(BitsOf(dest, depth), bit);
        if cur.Son(bit) == null {
          got := false;
          return;
        }
        cur := cur.Son(bit);
        depth := depth + 1;
      }
    }

    /** Makes the nodes from `depth` down to the end of the path. */
    method Extend(dest: Address, mask: nat, cur0: Node, depth0: nat, bit0: bool) returns (cur: Node)
      requires Valid() && depth0 < mask <= 32 && BitsOf(dest, depth0) in at && at[BitsOf(dest, depth0)] == cur0
      requires bit0 == BitAt(dest, depth0 + 1) && BitsOf(dest, depth0 + 1) !in at
      modifies this`at, at.Values
      ensures Valid() && fresh(at.Values - old(at.Values)) && old(at.Values) <= at.Values
      ensures BitsOf(dest, mask) in at && at[BitsOf(dest, mask)] == cur
      ensures forall p :: Stored(p) == old(Stored(p))
    {
      var depth, bit := depth0, bit0;
      cur := cur0;
      forall m | depth < m <= mask
        ensures BitsOf(dest, m) !in at
      {
        NoLongerPath(dest, depth + 1, m);
      }
      while depth < mask
        invariant depth <= mask && Valid() && fresh(at.Values - old(at.Values)) && old(at.Values) <= at.Values
        invariant BitsOf(dest, depth) in at && at[BitsOf(dest, depth)] == cur
        invariant depth < mask ==> bit == BitAt(dest, depth + 1)
        invariant forall m :: depth < m <= mask ==> BitsOf(dest, m) !in at
        invariant forall p :: Stored(p) == old(Stored(p))
      {
        ghost var p, before := BitsOf(dest, depth), at;
        assert p + [bit] == BitsOf(dest, depth + 1);
        cur := Grow(cur, bit, p);
        GrownValues(before, p + [bit], cur);
        depth := depth + 1;
        if depth < mask {
          bit := BitAt(dest, depth + 1);
        }
      }
    }

    lemma GrownValues(m: map<Path, Node>, p: Path, n: Node)
      requires p !in m
      ensures m[p := n].Values == m.Values + {n}
    {
      forall q | q in m
        ensures m[q] in m[p := n].Values
      {
        assert m[p := n][q] == m[q];
      }
      assert m[p := n][p] == n;
    }

    method Mark(cur: Node, iface: nat, dest: Address, ghost p: Path)
      requires Valid() && p in at && at[p] == cur
      modifies cur`matched, cur`iface, cur`dest
      ensures Valid() && at == old(at)
      ensures forall q :: Stored(q) == if q == p then Some((iface, dest)) else old(Stored(q))
    {
      cur.matched := true;
      cur.iface := iface;
      cur.dest := dest;
      forall q
        ensures Linked(q) && (q != p && q in at ==> at[q] != cur)
      {
        assert old(Linked(q));
        assert old(Same(q, p)) ==> q == p;
      }
    }

    /** Stores a route, growing the path to it where it is missing. */
    method Put(iface: nat, mask: nat, dest: Address)
      requires Valid() && mask <= 32
      modifies this`at, at.Values
      ensures Valid() && fresh(at.Values - old(at.Values))
      ensures forall p :: Stored(p) == if p == BitsOf(dest, mask) then Some((iface, dest)) else old(Stored(p))
    {
      var cur, depth, bit, got := Seek(dest, mask);
      if !got {
        cur := Extend(dest, mask, cur, depth, bit);
      }
      Mark(cur, iface, dest, BitsOf(dest, mask));
    }

    /** `node` stores the route of the first `n` bits, and no longer path of the address stores one. */
    ghost predicate FoundAt(dest: Address, node: Node, n: nat)
      reads this, at.Values
    {
      && 1 <= n <= 32 && BitsOf(dest, n) in at && at[BitsOf(dest, n)] == node && node.matched
      && forall m :: n < m <= 32 ==> Stored(BitsOf(dest, m)) == None
    }

    /** The longest stored path the address starts with, apart from the empty one. */
    method Get(dest: Address) returns (result: Node?)
      requires Valid()
      ensures result == null ==> forall n :: 1 <= n <= 32 ==> Stored(BitsOf(dest, n)) == None
      ensures result != null ==> exists n :: FoundAt(dest, result, n)
    {
      var depth, cur := 0, root;
      result := null;
      ghost var best := 0;
      while depth < 32
        invariant depth <= 32 && BitsOf(dest, depth) in at && at[BitsOf(dest, depth)] == cur
        invariant 0 <= best <= depth
        invariant result == null ==> best == 0
        invariant result != null ==>
              best >= 1 && BitsOf(dest, best) in at && at[BitsOf(dest, best)] == result && result.matched
        invariant forall m :: best < m <= depth ==> Stored(BitsOf(dest, m)) == None
      {
        var bit := BitAt(dest, depth + 1);
        SonOf(BitsOf(dest, depth), bit);
        if cur.Son(bit) == null {
          forall m | depth < m <= 32
            ensures BitsOf(dest, m) !in at
          {
            NoLongerPath(dest, depth + 1, m);
          }
          break;
        }
        cur := cur.Son(bit);
        depth := depth + 1;
        if cur.matched {
          result := cur;
          best := depth;
        }
      }
      assert result != null ==> FoundAt(dest, result, best);
    }

    lemma {:induction false} NoLongerPath(dest: Address, n: nat, m: nat)
      requires Valid() && n <= m <= 32 && BitsOf(dest, n) !in at
      ensures BitsOf(dest, m) !in at
      decreases m
    {
      if n < m {
        NoLongerPath(dest, n, m - 1);
        assert Linked(BitsOf(dest, m));
        assert BitsOf(dest, m)[..|BitsOf(dest, m)| - 1] == BitsOf(dest, m - 1);
      }
    }
  }
}
