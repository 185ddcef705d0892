/** 32-bit addresses, their prefixes, and the six-bit keys a poptrie walks along. */
module Addresses {
  const U32 := 0x1_0000_0000
  const K := 6

  type Address = d: nat | d < 0x1_0000_0000

  function Pow2(n: nat): (p: nat)
    ensures p > 0
  {
    if n == 0 then 1 else 2 * Pow2(n - 1)
  }

  /** `d >> n` and `d << n`, the latter without a word size. */
  function Shr(d: nat, n: nat): (s: nat)
    ensures s <= d
  {
    if n == 0 then d else Shr(d / 2, n - 1)
  }

  function Dbl(d: nat, n: nat): nat {
    if n == 0 then d else 2 * Dbl(d, n - 1)
  }

  /** The lowest `n` bits are zero. */
  predicate Clear(d: nat, n: nat) {
    n == 0 || (d % 2 == 0 && Clear(d / 2, n - 1))
  }

  /** Whether two addresses agree on their first `len` bits. */
  predicate Agree(p: Address, len: nat, d: Address)
    requires len <= 32
  {
    Shr(p, 32 - len) == Shr(d, 32 - len)
  }

  /** The first six bits of an address, and the address shifted past them. */
  function Top(d: Address): (k: nat)
    ensures k < 64
  {
    d / 0x400_0000
  }

  function Shl(d: Address): Address {
    (d * 64) % U32
  }

  /** `dest >> (32 - len) << (32 - len)`: the host part cleared. */
  function Network(d: Address, len: nat): (n: Address)
    requires len <= 32
  {
    DblShr(d, 32 - len);
    Dbl(Shr(d, 32 - len), 32 - len)
  }

  // ----- Shifts ----------------------------------------------------------

  lemma {:induction false} ShrAdd(d: nat, a: nat, b: nat)
    ensures Shr(d, a + b) == Shr(Shr(d, a), b)
  {
    if a > 0 {
      ShrAdd(d / 2, a - 1, b);
    }
  }

  lemma {:induction false} ShrStep(d: nat, n: nat)
    ensures Shr(d, n + 1) == Shr(d, n) / 2
  {
    ShrAdd(d, n, 1);
    assert Shr(Shr(d, n), 1) == Shr(Shr(d, n) / 2, 0);
  }

  lemma {:induction false} DblShr(d: nat, n: nat)
    ensures Dbl(Shr(d, n), n) <= d
  {
    if n > 0 {
      DblShr(d / 2, n - 1);
      DblIn(Shr(d / 2, n - 1), n - 1);
    }
  }

  lemma {:induction false} DblIn(d: nat, n: nat)
    ensures Dbl(d, n + 1) == 2 * Dbl(d, n)
    ensures Clear(Dbl(d, n), n) && Shr(Dbl(d, n), n) == d
  {
    if n > 0 {
      DblIn(d, n - 1);
      assert Dbl(d, n) / 2 == Dbl(d, n - 1);
    }
  }

  lemma {:induction false} ClearAdd(d: nat, a: nat, b: nat)
    requires Clear(d, a + b)
    ensures Clear(d, a) && Clear(Shr(d, a), b)
  {
    if a > 0 {
      ClearAdd(d / 2, a - 1, b);
    }
  }

  /** Below a clear block boundary, a finer block starts no earlier. */
  lemma {:induction false} ClearFloor(lo: nat, a: nat, k: nat, b: nat)
    requires Clear(lo, a) && lo <= k && b <= a
    ensures lo <= Dbl(Shr(k, b), b)
  {
    if b > 0 {
      ClearFloor(lo / 2, a - 1, k / 2, b - 1);
    }
  }

  lemma Half(hi: nat, p: nat, lo: nat)
    ensures (hi * (2 * p) + lo) / 2 == hi * p + lo / 2
    ensures (hi * (2 * p) + lo) % 2 == lo % 2
  {
    assert hi * (2 * p) == 2 * (hi * p);
  }

  /** Shifting by at most `k` bits leaves the part above bit `k` and the part below it apart. */
  lemma {:induction false} ShrSplit(hi: nat, lo: nat, k: nat, n: nat)
    requires lo < Pow2(k) && n <= k
    ensures Shr(hi * Pow2(k) + lo, n) == hi * Pow2(k - n) + Shr(lo, n)
    ensures Shr(lo, n) < Pow2(k - n)
    ensures Clear(hi * Pow2(k) + lo, n) <==> Clear(lo, n)
  {
    if n > 0 {
      Half(hi, Pow2(k - 1), lo);
      ShrSplit(hi, lo / 2, k - 1, n - 1);
    }
  }

  lemma MulMono(m: int, x: int, y: int)
    ensures m >= 0 && x <= y ==> m * x <= m * y
    ensures m * (x + 1) == m * x + m
  {
  }

  lemma MixedUnique(a: int, b: int, q: int, r: int, s: int)
    requires 0 <= r < q && 0 <= s < q
    ensures a * q + r == b * q + s <==> a == b && r == s
  {
    MulMono(q, b + 1, a);
    MulMono(q, a + 1, b);
    MulMono(q, a, a);
    MulMono(q, b, b);
  }

  lemma Pow2Values()
    ensures Pow2(0) == 1 && Pow2(1) == 2 && Pow2(2) == 4 && Pow2(3) == 8 && Pow2(4) == 16 && Pow2(5) == 32
    ensures Pow2(6) == 64
    ensures Pow2(26) == 0x400_0000
  {
    assert Pow2(6) == 64;
    assert Pow2(12) == 4096;
    assert Pow2(18) == 4096 * 64;
    assert Pow2(24) == 4096 * 4096;
  }

  // ----- Keys and prefixes -----------------------------------------------

  /** An address is its first key followed by the rest. */
  lemma SplitAddress(d: Address, n: nat)
    requires n <= 26
    ensures Shr(d, n) == Top(d) * Pow2(26 - n) + Shr(d % 0x400_0000, n) && Shr(d % 0x400_0000, n) < Pow2(26 - n)
    ensures Clear(d, n) <==> Clear(d % 0x400_0000, n)
  {
    Pow2Values();
    ShrSplit(Top(d), d % 0x400_0000, 26, n);
  }

  lemma Twice(x: nat, n: nat)
    ensures Shr(2 * x, n + 1) == Shr(x, n)
    ensures Clear(2 * x, n + 1) <==> Clear(x, n)
  {
    assert 2 * x / 2 == x;
  }

  lemma Times8(x: nat, n: nat)
    ensures Shr(8 * x, n + 3) == Shr(x, n)
    ensures Clear(8 * x, n + 3) <==> Clear(x, n)
  {
    Twice(x, n);
    var y := 2 * x;
    Twice(y, n + 1);
    var z := 2 * y;
    Twice(z, n + 2);
    assert 2 * z == 8 * x;
  }

  lemma Times64(x: nat, n: nat)
    ensures Shr(64 * x, n + 6) == Shr(x, n)
    ensures Clear(64 * x, n + 6) <==> Clear(x, n)
  {
    Times8(x, n);
    var y := 8 * x;
    Times8(y, n + 3);
    assert 8 * y == 64 * x;
  }

  lemma ShlLow(d: Address)
    ensures Shl(d) == 64 * (d % 0x400_0000)
  {
  }

  lemma ShiftedAddress(d: Address, n: nat)
    ensures Shr(Shl(d), n + 6) == Shr(d % 0x400_0000, n)
    ensures Clear(Shl(d), n + 6) <==> Clear(d % 0x400_0000, n)
  {
    ShlLow(d);
    Times64(d % 0x400_0000, n);
  }

  /** A prefix longer than one key is the key followed by the shorter prefix of what remains. */
  lemma AgreeByKey(p: Address, len: nat, d: Address)
    requires 6 <= len <= 32
    ensures Agree(p, len, d) <==> Top(p) == Top(d) && Agree(Shl(p), len - 6, Shl(d))
  {
    var n := 32 - len;
    SplitAddress(p, n);
    SplitAddress(d, n);
    ShiftedAddress(p, n);
    ShiftedAddress(d, n);
    MixedUnique(Top(p), Top(d), Pow2(26 - n), Shr(p % 0x400_0000, n), Shr(d % 0x400_0000, n));
  }

  lemma TopIsShr(d: Address)
    ensures Shr(d, 26) == Top(d)
  {
    SplitAddress(d, 26);
    Pow2Values();
    assert Shr(d % 0x400_0000, 26) == 0;
  }

  /** A prefix of at most one key is an aligned range of keys. */
  lemma AgreeInKey(p: Address, len: nat, d: Address)
    requires len <= 6
    ensures Agree(p, len, d) <==> Shr(Top(p), 6 - len) == Shr(Top(d), 6 - len)
  {
    TopIsShr(p);
    TopIsShr(d);
    ShrAdd(p, 26, 6 - len);
    ShrAdd(d, 26, 6 - len);
  }

  /** Longer agreement is finer. */
  lemma AgreeShorter(p: Address, len: nat, shorter: nat, d: Address)
    requires shorter <= len <= 32 && Agree(p, len, d)
    ensures Agree(p, shorter, d)
  {
    ShrAdd(p, 32 - len, len - shorter);
    ShrAdd(d, 32 - len, len - shorter);
  }

  // ----- Cleared host parts ----------------------------------------------

  lemma NetworkAgrees(d: Address, len: nat, x: Address)
    requires len <= 32
    ensures Clear(Network(d, len), 32 - len)
    ensures Agree(Network(d, len), len, x) <==> Agree(d, len, x)
  {
    DblIn(Shr(d, 32 - len), 32 - len);
  }

  /** Shifting out a key keeps the host part clear. */
  lemma ClearShl(d: Address, len: nat)
    requires 6 <= len <= 32 && Clear(d, 32 - len)
    ensures Clear(Shl(d), 38 - len)
  {
    SplitAddress(d, 32 - len);
    ShiftedAddress(d, 32 - len);
  }

  /** The last key of a prefix starts the range of keys the prefix covers. */
  lemma ClearTop(d: Address, len: nat)
    requires len <= 6 && Clear(d, 32 - len)
    ensures Clear(Top(d), 6 - len)
  {
    TopIsShr(d);
    ClearAdd(d, 26, 6 - len);
  }

  /** `[first, first + 2^n)` is the set of numbers that differ from `first` in the last `n` bits only. */
  lemma {:induction false} ClearRange(first: nat, k: nat, n: nat)
    requires Clear(first, n)
    ensures first <= k < first + Pow2(n) <==> Shr(first, n) == Shr(k, n)
  {
    if n > 0 {
      ClearRange(first / 2, k / 2, n - 1);
    }
  }

  lemma {:induction false} ClearRoom(first: nat, n: nat, m: nat)
    requires Clear(first, n) && n <= m && first < Pow2(m)
    ensures first + Pow2(n) <= Pow2(m)
  {
    if n > 0 {
      ClearRoom(first / 2, n - 1, m - 1);
    }
  }

  lemma KeyRange(first: nat, k: nat, len: nat)
    requires first < 64 && 1 <= len <= 6 && Clear(first, 6 - len)
    ensures first + Pow2(6 - len) <= 64
    ensures first <= k < first + Pow2(6 - len) <==> Shr(first, 6 - len) == Shr(k, 6 - len)
  {
    Pow2Values();
    ClearRoom(first, 6 - len, 6);
    ClearRange(first, k, 6 - len);
  }

  // ----- The keys of an address ------------------------------------------

  /** `d` shifted left by `n` keys. */
  function Rest(d: Address, n: nat): Address {
    if n == 0 then d else Shl(Rest(d, n - 1))
  }

  function KeyAt(d: Address, j: nat): (k: nat)
    ensures k < 64
  {
    Top(Rest(d, j))
  }

  /** The six keys of an address; the last one holds its two lowest bits and four zeros. */
  function KeysOf(d: Address): (x: seq<nat>)
    ensures |x| == 6 && forall j :: 0 <= j < 6 ==> x[j] == KeyAt(d, j)
  {
    seq(6, (j: nat) => KeyAt(d, j))
  }

  /** The level of the node that holds the leaves of a prefix, and the bits of the prefix left there. */
  function Level(len: nat): (l: nat)
    requires 1 <= len <= 32
    ensures l <= 5 && 6 * l < len <= 6 * l + 6
  {
    (len - 1) / 6
  }

  /** Whether the keys `x` lie under the prefix: equal keys above its level, equal leading bits there. */
  predicate Under(p: Address, len: nat, x: seq<nat>)
    requires 1 <= len <= 32 && |x| == 6
  {
    UnderFrom(p, len, x, 0)
  }

  predicate UnderFrom(p: Address, len: nat, x: seq<nat>, j: nat)
    requires 1 <= len <= 32 && |x| == 6 && j <= Level(len)
    decreases Level(len) - j
  {
    if j < Level(len) then x[j] == KeyAt(p, j) && UnderFrom(p, len, x, j + 1)
    else Shr(x[j], 6 * j + 6 - len) == Shr(KeyAt(p, j), 6 * j + 6 - len)
  }

  lemma {:induction false} UnderSays(p: Address, len: nat, x: seq<nat>, j: nat)
    requires 1 <= len <= 32 && |x| == 6 && j <= Level(len)
    ensures UnderFrom(p, len, x, j) <==>
              (forall i :: j <= i < Level(len) ==> x[i] == KeyAt(p, i)) &&
              Shr(x[Level(len)], 6 * Level(len) + 6 - len) == Shr(KeyAt(p, Level(len)), 6 * Level(len) + 6 - len)
    decreases Level(len) - j
  {
    if j < Level(len) {
      UnderSays(p, len, x, j + 1);
    }
  }

  lemma {:induction false} AgreeFrom(p: Address, len: nat, d: Address, x: seq<nat>, j: nat)
    requires 1 <= len <= 32 && j <= Level(len) && |x| == 6 && forall i :: 0 <= i < 6 ==> x[i] == KeyAt(d, i)
    ensures Agree(Rest(p, j), len - 6 * j, Rest(d, j)) <==> UnderFrom(p, len, x, j)
    decreases Level(len) - j
  {
    if j < Level(len) {
      AgreeByKey(Rest(p, j), len - 6 * j, Rest(d, j));
      AgreeFrom(p, len, d, x, j + 1);
    } else {
      AgreeInKey(Rest(p, j), len - 6 * j, Rest(d, j));
    }
  }

  /** Prefix agreement of addresses is agreement of their keys. */
  lemma AgreeIsUnder(p: Address, len: nat, d: Address)
    requires 1 <= len <= 32
    ensures Agree(p, len, d) <==> Under(p, len, KeysOf(d))
  {
    AgreeFrom(p, len, d, KeysOf(d), 0);
  }

  /** The first twelve bits are the first two keys. */
  lemma TopTwo(d: Address)
    ensures Shr(d, 20) == KeyAt(d, 0) * 64 + KeyAt(d, 1)
  {
    Pow2Values();
    SplitAddress(d, 20);
    assert Rest(d, 1) == Shl(d);
    TopIsShr(Shl(d));
    ShiftedAddress(d, 20);
  }

  lemma {:induction false} ClearRest(d: Address, len: nat, n: nat)
    requires 1 <= len <= 32 && n <= Level(len) && Clear(d, 32 - len)
    ensures Clear(Rest(d, n), 32 - (len - 6 * n))
  {
    if n > 0 {
      ClearRest(d, len, n - 1);
      ClearShl(Rest(d, n - 1), len - 6 * (n - 1));
    }
  }

  /** Under an aligned prefix lie the keys that share its path and fall in its range. */
  lemma UnderIsRange(p: Address, len: nat, x: seq<nat>)
    requires 1 <= len <= 32 && |x| == 6 && Clear(p, 32 - len)
    ensures var l := Level(len);
            var lo, hi := KeyAt(p, l), KeyAt(p, l) + Pow2(6 * l + 6 - len);
            && Clear(lo, 6 * l + 6 - len) && hi <= 64
            && (Under(p, len, x) <==> x[..l] == KeysOf(p)[..l] && lo <= x[l] < hi)
  {
    var l := Level(len);
    ClearRest(p, len, l);
    ClearTop(Rest(p, l), len - 6 * l);
    KeyRange(KeyAt(p, l), x[l], len - 6 * l);
    UnderSays(p, len, x, 0);
    if x[..l] == KeysOf(p)[..l] {
      forall i | 0 <= i < l
        ensures x[i] == KeyAt(p, i)
      {
        assert x[i] == x[..l][i] == KeysOf(p)[..l][i];
      }
    }
  }

  /** Clearing the host part changes neither the path of a prefix nor what lies under it. */
  lemma NetworkUnder(d: Address, len: nat)
    requires 1 <= len <= 32
    ensures KeysOf(Network(d, len))[..Level(len)] == KeysOf(d)[..Level(len)]
    ensures forall x :: |x| == 6 ==> (Under(Network(d, len), len, x) <==> Under(d, len, x))
  {
    var n := Network(d, len);
    NetworkAgrees(d, len, d);
    AgreeIsUnder(n, len, d);
    UnderSays(n, len, KeysOf(d), 0);
    forall x | |x| == 6
      ensures Under(n, len, x) <==> Under(d, len, x)
    {
      UnderSays(n, len, x, 0);
      UnderSays(d, len, x, 0);
    }
  }
}
