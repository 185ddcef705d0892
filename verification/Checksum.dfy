/**
 The one's-complement checksum of IP and TCP headers (section 1 of RFC 1071),
 computed in a 32-bit accumulator on a little-endian host.
 */
module Checksum {
  import opened RingBuffer
  import opened TcpConstants

  function Word(low: nat, high: nat): nat {
    low + 256 * high
  }

  /** The sum of the first `n` 16-bit words. */
  function WordSum(buf: seq<Byte>, n: nat): nat
    requires 2 * n <= |buf|
  {
    if n == 0 then 0 else WordSum(buf, n - 1) + Word(buf[2 * n - 2], buf[2 * n - 1])
  }

  /** The sum of the first `n` bytes, those at odd positions 256-fold. */
  function ByteSum(buf: seq<Byte>, n: nat): nat
    requires n <= |buf|
  {
    if n == 0 then 0 else ByteSum(buf, n - 1) + (if (n - 1) % 2 == 0 then 1 else 256) * buf[n - 1] as nat
  }

  lemma {:induction false} WordsAreBytes(buf: seq<Byte>, n: nat)
    requires 2 * n <= |buf|
    ensures WordSum(buf, n) == ByteSum(buf, 2 * n)
  {
    if n > 0 {
      WordsAreBytes(buf, n - 1);
      assert ByteSum(buf, 2 * n - 1) == ByteSum(buf, 2 * n - 2) + buf[2 * n - 2];
    }
  }

  /** The words, and a last byte if there is one. */
  lemma WordsAndLast(buf: seq<Byte>)
    ensures ByteSum(buf, |buf|) == WordSum(buf, |buf| / 2) + if |buf| % 2 == 1 then buf[|buf| - 1] as nat else 0
  {
    var n := |buf| / 2;
    WordsAreBytes(buf, n);
    assert |buf| == 2 * n || |buf| == 2 * n + 1;
  }

  /** Changing one byte changes the sum by 1 or 256 times the difference, by its position. */
  lemma {:induction false} ByteChanged(buf: seq<Byte>, i: nat, b: Byte, n: nat)
    requires i < |buf| && n <= |buf|
    ensures ByteSum(buf[i := b], n) ==
            ByteSum(buf, n) + if i >= n then 0 else (b - buf[i]) * if i % 2 == 0 then 1 else 256
  {
    if n > 0 {
      ByteChanged(buf, i, b, n - 1);
    }
  }

  /** The sum of zeros is 0; with `ByteChanged` this determines the sum of any bytes. */
  lemma {:induction false} ZerosSum(buf: seq<Byte>, n: nat)
    requires n <= |buf| && forall i :: 0 <= i < n ==> buf[i] == 0
    ensures ByteSum(buf, n) == 0
  {
    if n > 0 {
      ZerosSum(buf, n - 1);
    }
  }

  lemma {:induction false} SameBytes(buf: seq<Byte>, c: seq<Byte>, n: nat)
    requires n <= |buf| && n <= |c| && forall i :: 0 <= i < n ==> buf[i] == c[i]
    ensures ByteSum(buf, n) == ByteSum(c, n)
  {
    if n > 0 {
      SameBytes(buf, c, n - 1);
    }
  }

  /** The exact total. */
  function Total(buf: seq<Byte>, init: nat): nat {
    init + ByteSum(buf, |buf|)
  }

  /** A last odd byte counts as if a zero byte followed. */
  lemma OddIsPadded(buf: seq<Byte>, n: nat, init: nat)
    requires |buf| == 2 * n + 1
    ensures Total(buf, init) == Total(buf + [0], init) == init + WordSum(buf + [0], n + 1)
  {
    var c := buf + [0];
    SameBytes(buf, c, 2 * n + 1);
    WordsAreBytes(c, n + 1);
    assert ByteSum(c, 2 * n + 2) == ByteSum(c, 2 * n + 1) + 256 * c[2 * n + 1] as nat;
  }

  /** The 16-bit number congruent to `s` modulo 65535 that is 0 only for 0. */
  function Residue(s: nat): (r: nat)
    ensures r <= 65535 && r % 65535 == s % 65535 && (r == 0 <==> s == 0)
  {
    if s == 0 then 0 else (s - 1) % 65535 + 1
  }

  lemma ResidueUnique(s: nat, r: nat)
    requires r <= 65535 && r % 65535 == s % 65535 && (r == 0 <==> s == 0)
    ensures r == Residue(s)
  {
  }

  lemma FoldOnce(s: nat)
    requires 65536 <= s
    ensures 0 < s / 65536 + s % 65536 < s && Residue(s / 65536 + s % 65536) == Residue(s)
  {
    var (h, l) := (s / 65536, s % 65536);
    assert s - (h + l) == 65535 * h;
    assert s % 65535 == (h + l) % 65535;
    ResidueUnique(s, Residue(h + l));
  }

  lemma AddWraps(x: nat, y: nat)
    ensures (x % U32 + y) % U32 == (x + y) % U32
  {
  }

  /** Adds the upper half to the lower half until 16 bits are left. */
  method Fold(sum: nat) returns (s: nat)
    ensures s == Residue(sum)
  {
    s := sum;
    while s / 65536 != 0
      invariant Residue(s) == Residue(sum)
      decreases s
    {
      FoldOnce(s);
      s := s / 65536 + s % 65536;
    }
  }

  /** Wraps around at 32 bits while adding, then folds and complements. */
  method Compute(buf: seq<Byte>, init: nat) returns (r: nat)
    requires init < U32
    ensures r == 65535 - Residue((init + ByteSum(buf, |buf|)) % U32)
  {
    var sum: nat := init;
    var i := 0;
    while i < |buf| / 2
      invariant i <= |buf| / 2
      invariant sum == (init + WordSum(buf, i)) % U32
    {
      AddWraps(init + WordSum(buf, i), Word(buf[2 * i], buf[2 * i + 1]));
      sum := (sum + Word(buf[2 * i], buf[2 * i + 1])) % U32;
      i := i + 1;
    }
    WordsAndLast(buf);
    if |buf| % 2 == 1 {
      AddWraps(init + WordSum(buf, |buf| / 2), buf[|buf| - 1]);
      sum := (sum + buf[|buf| - 1]) % U32;
    }
    sum := Fold(sum);
    r := 65535 - sum;
  }

  lemma AddMultiple(a: nat, m: nat)
    ensures (a + 65535 * m) % 65535 == a % 65535
  {
  }

  lemma SameResidue(a: nat, q: nat)
    ensures (a + q) % 65535 == a % 65535 <==> q % 65535 == 0
  {
  }

  /** The carries the accumulator loses are missing from the sum, and nothing else is. */
  lemma CongruentExactly(buf: seq<Byte>, init: nat)
    ensures Residue(Total(buf, init) % U32) % 65535 == Total(buf, init) % 65535 <==>
              (Total(buf, init) / U32) % 65535 == 0
    ensures Total(buf, init) < U32 ==> Residue(Total(buf, init) % U32) == Residue(Total(buf, init))
  {
    var t := Total(buf, init);
    var q, r := t / U32, t % U32;
    assert t == r + q + 65535 * (65537 * q);
    AddMultiple(r + q, 65537 * q);
    SameResidue(r, q);
  }

  // ----- Checking what was stored ------------------------------------------

  function Stored(buf: seq<Byte>, at: nat, r: nat): seq<Byte>
    requires at + 1 < |buf| && r <= 65535
  {
    buf[at := r % 256][at + 1 := r / 256]
  }

  lemma StoredTotal(buf: seq<Byte>, c: nat, r: nat, init: nat)
    requires 2 * c + 1 < |buf| && r <= 65535 && buf[2 * c] == 0 == buf[2 * c + 1]
    ensures Total(Stored(buf, 2 * c, r), init) == Total(buf, init) + r
  {
    ByteChanged(buf, 2 * c, r % 256, |buf|);
    ByteChanged(buf[2 * c := r % 256], 2 * c + 1, r / 256, |buf|);
  }

  lemma NeverCarries(s: nat)
    requires s < U32
    ensures s + (65535 - Residue(s)) < U32 && (s + (65535 - Residue(s))) % 65535 == 0
  {
    assert (s + (65535 - Residue(s))) % 65535 == 0;
    assert s + (65535 - Residue(s)) <= 65537 * 65535;
  }

  /**
   The checksum stored in its zeroed field makes the sum over the data come out
   as 0, even if the accumulator has overflowed.
   */
  lemma RecheckIsZero(buf: seq<Byte>, c: nat, init: nat)
    requires 2 * c + 1 < |buf| && buf[2 * c] == 0 == buf[2 * c + 1]
    ensures var r := 65535 - Residue(Total(buf, init) % U32);
            65535 - Residue(Total(Stored(buf, 2 * c, r), init) % U32) == 0
  {
    var s := Total(buf, init) % U32;
    var r := 65535 - Residue(s);
    StoredTotal(buf, c, r, init);
    AddWraps(Total(buf, init), r);
    NeverCarries(s);
    assert (s + r) % U32 == s + r;
    ResidueUnique(s + r, 65535);
  }

  // ----- Detecting what was changed ----------------------------------------

  /** A small change of a 32-bit sum, wrapped around or not, never keeps its residue. */
  lemma ChangedResidue(t: nat, u: nat)
    requires 0 < u - t < 65535
    ensures Residue(t % U32) != Residue(u % U32)
  {
    var (x, y) := (t % U32, u % U32);
    if t / U32 == u / U32 {
      assert y == x + (u - t);
    } else {
      assert y == x + (u - t) - U32;
      AddMultiple(y, 65537);
      assert y + 65535 * 65537 == x + (u - t - 1);
      SameResidue(x, u - t - 1);
    }
  }

  /** Any change of a single byte changes the result, even if the accumulator overflows. */
  lemma OneByteDetected(buf: seq<Byte>, init: nat, i: nat, b: Byte)
    requires i < |buf| && b != buf[i]
    ensures Residue(Total(buf[i := b], init) % U32) != Residue(Total(buf, init) % U32)
  {
    ByteChanged(buf, i, b, |buf|);
    var (t, u) := (Total(buf, init), Total(buf[i := b], init));
    if t < u {
      ChangedResidue(t, u);
    } else {
      ChangedResidue(u, t);
    }
  }
}
