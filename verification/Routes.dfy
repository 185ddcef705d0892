/** What a forwarding table means: longest-prefix match, the later of two equal prefixes winning. */
module Routes {
  import opened Options
  import opened Addresses

  datatype Route = Route(dest: Address, len: nat, iface: nat)

  predicate Usable(r: Route) {
    1 <= r.len <= 32
  }

  predicate Matches(r: Route, d: Address)
    requires r.len <= 32
  {
    Agree(r.dest, r.len, d)
  }

  ghost predicate Usables(table: seq<Route>) {
    forall i :: 0 <= i < |table| ==> Usable(table[i])
  }

  /** The route a table sends `d` along. */
  function Lpm(table: seq<Route>, d: Address): (best: Option<Route>)
    requires Usables(table)
    ensures best.Some? ==> best.value in table && Matches(best.value, d)
  {
    if table == [] then None else
    var n := |table| - 1;
    var before := Lpm(table[..n], d);
    if Matches(table[n], d) && (before.None? || before.value.len <= table[n].len) then Some(table[n]) else before
  }

  /** Route `w` matches, no matching route is longer, and no later matching route is as long. */
  ghost predicate Winner(table: seq<Route>, d: Address, w: nat)
    requires Usables(table)
  {
    && w < |table| && Matches(table[w], d)
    && (forall i :: 0 <= i < |table| && Matches(table[i], d) ==> table[i].len <= table[w].len)
    && (forall i :: w < i < |table| && Matches(table[i], d) ==> table[i].len < table[w].len)
  }

  lemma WinnerKept(table: seq<Route>, d: Address, w: nat)
    requires table != [] && Usables(table) && Winner(table[..|table| - 1], d, w)
    requires Matches(table[|table| - 1], d) ==> table[|table| - 1].len < table[w].len
    ensures Winner(table, d, w)
  {
    forall i | 0 <= i < |table| && Matches(table[i], d)
      ensures table[i].len <= table[w].len && (w < i ==> table[i].len < table[w].len)
    {
      if i < |table| - 1 {
        assert table[i] == table[..|table| - 1][i];
      }
    }
  }

  lemma WinnerReplaced(table: seq<Route>, d: Address)
    requires table != [] && Usables(table) && Matches(table[|table| - 1], d)
    requires forall i :: 0 <= i < |table| - 1 && Matches(table[i], d) ==> table[i].len <= table[|table| - 1].len
    ensures Winner(table, d, |table| - 1)
  {
  }

  /** `Lpm` finds nothing exactly when nothing matches, and otherwise the winner. */
  lemma {:induction false} LpmIsWinner(table: seq<Route>, d: Address) returns (w: nat)
    requires Usables(table)
    ensures Lpm(table, d).None? <==> forall i :: 0 <= i < |table| ==> !Matches(table[i], d)
    ensures Lpm(table, d).Some? ==> Winner(table, d, w) && Lpm(table, d).value == table[w]
  {
    w := 0;
    if table != [] {
      var n := |table| - 1;
      w := LpmIsWinner(table[..n], d);
      assert forall i :: 0 <= i < n ==> table[i] == table[..n][i];
      if Matches(table[n], d) && (Lpm(table[..n], d).None? || table[w].len <= table[n].len) {
        w := n;
        WinnerReplaced(table, d);
      } else if Lpm(table[..n], d).Some? {
        WinnerKept(table, d, w);
      }
    }
  }

  /** Adding a route at the end changes the answer exactly where it matches and nothing longer does. */
  lemma LpmSnoc(table: seq<Route>, r: Route, d: Address)
    requires Usables(table) && Usable(r)
    ensures Usables(table + [r])
    ensures var before := Lpm(table, d);
            Lpm(table + [r], d) ==
            if Matches(r, d) && (before.None? || before.value.len <= r.len) then Some(r) else before
  {
    var t := table + [r];
    assert t[..|t| - 1] == table;
  }

  // ----- The linear scan -------------------------------------------------

  /** An entry of the list-based table; its netmask may be any 32-bit number. */
  datatype RtEntry = RtEntry(dest: Address, mask: Address, iface: nat)

  /** `a & b` on the lowest `n` bits. */
  function And(a: nat, b: nat, n: nat): nat {
    if n == 0 then 0 else 2 * And(a / 2, b / 2, n - 1) + if a % 2 == 1 && b % 2 == 1 then 1 else 0
  }

  predicate EntryMatches(e: RtEntry, dst: Address) {
    And(dst, e.mask, 32) == And(e.dest, e.mask, 32)
  }

  predicate SameWhereSet(a: nat, b: nat, m: nat, i: nat) {
    Shr(m, i) % 2 == 1 ==> Shr(a, i) % 2 == Shr(b, i) % 2
  }

  lemma {:induction false} AndComparesBits(a: nat, b: nat, m: nat, n: nat)
    ensures And(a, m, n) == And(b, m, n) <==> forall i :: 0 <= i < n ==> SameWhereSet(a, b, m, i)
  {
    if n > 0 {
      AndComparesBits(a / 2, b / 2, m / 2, n - 1);
      forall i | 0 < i < n
        ensures SameWhereSet(a, b, m, i) <==> SameWhereSet(a / 2, b / 2, m / 2, i - 1)
      {
      }
      assert SameWhereSet(a, b, m, 0) <==> (m % 2 == 1 ==> a % 2 == b % 2);
      assert (forall i :: 0 <= i < n ==> SameWhereSet(a, b, m, i)) <==>
             SameWhereSet(a, b, m, 0) && forall i :: 0 <= i < n - 1 ==> SameWhereSet(a / 2, b / 2, m / 2, i) by {
        if forall i :: 0 <= i < n ==> SameWhereSet(a, b, m, i) {
          forall i | 0 <= i < n - 1
            ensures SameWhereSet(a / 2, b / 2, m / 2, i)
          {
            assert SameWhereSet(a, b, m, i + 1);
          }
        }
      }
    }
  }

  /** An entry matches exactly the addresses that equal its own in every bit of its netmask. */
  lemma EntryMatchesBits(e: RtEntry, dst: Address)
    ensures EntryMatches(e, dst) <==> forall i :: 0 <= i < 32 ==> SameWhereSet(dst, e.dest, e.mask, i)
  {
    AndComparesBits(dst, e.dest, e.mask, 32);
  }

  /** The first of the matching entries with the largest netmask. */
  ghost predicate Selected(rtable: seq<RtEntry>, dst: Address, selected: Option<nat>) {
    && (selected.None? <==> forall i :: 0 <= i < |rtable| ==> !EntryMatches(rtable[i], dst))
    && (selected.Some? ==>
          var s := selected.value;
          && s < |rtable| && EntryMatches(rtable[s], dst)
          && (forall i :: 0 <= i < |rtable| && EntryMatches(rtable[i], dst) ==> rtable[i].mask <= rtable[s].mask)
          && (forall i :: 0 <= i < s && EntryMatches(rtable[i], dst) ==> rtable[i].mask < rtable[s].mask))
  }

  /** `longest_prefix_match`. */
  method LongestPrefixMatch(rtable: seq<RtEntry>, dst: Address) returns (selected: Option<nat>)
    ensures Selected(rtable, dst, selected)
  {
    selected := None;
    for k := 0 to |rtable|
      invariant Selected(rtable[..k], dst, selected)
    {
      assert rtable[..k + 1] == rtable[..k] + [rtable[k]];
      if EntryMatches(rtable[k], dst) {
        if selected.None? || rtable[selected.value].mask < rtable[k].mask {
          selected := Some(k);
        }
      }
    }
    assert rtable[..|rtable|] == rtable;
  }

  // ----- Contiguous netmasks ----------------------------------------------

  /** `len` leading ones. */
  function Netmask(len: nat): (m: Address)
    requires len <= 32
  {
    Pow2Is32();
    Pow2Order(0, 32 - len);
    Pow2Order(32 - len, 32);
    Pow2(32) - Pow2(32 - len)
  }

  lemma Pow2Is32()
    ensures Pow2(32) == U32
  {
    Pow2Values();
    assert Pow2(30) == 16 * Pow2(26);
  }

  lemma {:induction false} Pow2Order(a: nat, b: nat)
    requires a <= b
    ensures Pow2(a) <= Pow2(b) && (a < b ==> Pow2(a) < Pow2(b))
  {
    if a < b {
      Pow2Order(a, b - 1);
    }
  }

  lemma NetmaskOrder(a: nat, b: nat)
    requires a <= 32 && b <= 32
    ensures a < b <==> Netmask(a) < Netmask(b)
  {
    if a < b {
      Pow2Order(32 - b, 32 - a);
    } else {
      Pow2Order(32 - a, 32 - b);
    }
  }

  lemma {:induction false} AndOnes(d: nat, n: nat)
    requires d < Pow2(n)
    ensures And(d, Pow2(n) - 1, n) == d
  {
    if n > 0 {
      AndOnes(d / 2, n - 1);
      assert (Pow2(n) - 1) / 2 == Pow2(n - 1) - 1;
    }
  }

  lemma {:induction false} AndLeadingOnes(d: nat, k: nat, n: nat)
    requires d < Pow2(n) && k <= n && Pow2(k) <= Pow2(n)
    ensures And(d, Pow2(n) - Pow2(k), n) == Dbl(Shr(d, k), k)
  {
    if k == 0 {
      AndOnes(d, n);
    } else {
      AndLeadingOnes(d / 2, k - 1, n - 1);
      assert (Pow2(n) - Pow2(k)) / 2 == Pow2(n - 1) - Pow2(k - 1);
    }
  }

  /** An entry with a contiguous netmask is a route. */
  function AsEntry(r: Route): RtEntry
    requires r.len <= 32
  {
    RtEntry(r.dest, Netmask(r.len), r.iface)
  }

  function AsEntries(table: seq<Route>): seq<RtEntry>
    requires forall i :: 0 <= i < |table| ==> table[i].len <= 32
  {
    seq(|table|, i requires 0 <= i < |table| => AsEntry(table[i]))
  }

  lemma EntryMatchesRoute(r: Route, d: Address)
    requires Usable(r)
    ensures EntryMatches(AsEntry(r), d) <==> Matches(r, d)
  {
    var k := 32 - r.len;
    Pow2Is32();
    Pow2Order(k, 32);
    AndLeadingOnes(d, k, 32);
    AndLeadingOnes(r.dest, k, 32);
    DblIn(Shr(d, k), k);
    DblIn(Shr(r.dest, k), k);
  }

  // ----- The scan is longest-prefix match -----------------------------------

  ghost predicate DistinctPrefixes(table: seq<Route>) {
    forall i, j :: 0 <= i < j < |table| && table[i].len == table[j].len <= 32 ==>
      !Agree(table[i].dest, table[i].len, table[j].dest)
  }

  /** Two longest matches of distinct prefixes are the same route. */
  lemma LongestIsUnique(table: seq<Route>, d: Address, w: nat, s: nat)
    requires Usables(table) && DistinctPrefixes(table) && w < |table| && s < |table|
    requires Matches(table[w], d) && Matches(table[s], d) && table[w].len == table[s].len
    ensures w == s
  {
    assert Agree(table[w].dest, table[w].len, table[s].dest);
    assert Agree(table[s].dest, table[s].len, table[w].dest);
  }

  /** On distinct prefixes the scan, which keeps the first of equals, and `Lpm`, which keeps the last, agree. */
  lemma ScanAgreesWithLpm(table: seq<Route>, d: Address, selected: Option<nat>)
    requires Usables(table) && DistinctPrefixes(table) && Selected(AsEntries(table), d, selected)
    ensures selected.Some? ==> selected.value < |table|
    ensures Lpm(table, d) == if selected.None? then None else Some(table[selected.value])
  {
    var rtable := AsEntries(table);
    var w := LpmIsWinner(table, d);
    forall i | 0 <= i < |table|
      ensures EntryMatches(rtable[i], d) <==> Matches(table[i], d)
    {
      EntryMatchesRoute(table[i], d);
    }
    if selected.Some? {
      var s := selected.value;
      assert rtable[w].mask <= rtable[s].mask;
      NetmaskOrder(table[s].len, table[w].len);
      LongestIsUnique(table, d, w, s);
    }
  }

  /** The list-based table of a router answers like `Lpm`. */
  method ForwardByScan(table: seq<Route>, dst: Address) returns (best: Option<Route>)
    requires Usables(table) && DistinctPrefixes(table)
    ensures best == Lpm(table, dst)
  {
    var selected := LongestPrefixMatch(AsEntries(table), dst);
    ScanAgreesWithLpm(table, dst, selected);
    best := if selected.None? then None else Some(table[selected.value]);
  }
}
