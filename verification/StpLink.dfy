/**
 The two ends of one link, when messages on it are neither lost nor reordered.
 Each end is seen through what it holds and what it has ever sent; a counter
 per direction says how much the other end has received.
 */
module StpLink {
  import opened StpSwitch

  datatype End = End(blocked: bool, vec: Vector, log: seq<Vector>)

  /** An end that designates itself holds what it says, and has said nothing better. */
  ghost predicate Side(v: End, id: nat) {
    && (forall k :: 0 <= k < |v.log| ==> v.log[k].switch == id)
    && (!v.blocked ==> v.vec.switch == id && forall k :: 0 <= k < |v.log| ==> PortCmp(v.log[k], v.vec))
  }

  /** What the messages from `a` to `b`, `received` of which have arrived, guarantee. */
  ghost predicate Direction(a: End, received: nat, b: End) {
    && received <= |a.log|
    && (forall i, j :: 0 <= i <= j < |a.log| ==> PortCmp(a.log[i], a.log[j]))
    && (b.blocked ==> received > 0 && b.vec == a.log[received - 1])
    && (a.blocked ==> !b.blocked && forall k :: received <= k < |a.log| ==> !PortCmp(b.vec, a.log[k]))
    && (!a.blocked && a.log != [] ==> a.log[|a.log| - 1] == a.vec)
    && (!b.blocked ==> forall k :: 0 <= k < received ==> !PortCmp(b.vec, a.log[k]))
    && (!b.blocked && received > 0 ==> b.log != [])
  }

  ghost predicate LinkInv(a: End, toB: nat, b: End, toA: nat) {
    Direction(a, toB, b) && Direction(b, toA, a)
  }

  // ----- What one step can do to an end ----------------------------------

  ghost predicate Speaks(v: End, v': End) {
    !v.blocked && !v'.blocked && PortCmp(v.vec, v'.vec) && v'.log == v.log + [v'.vec]
  }

  ghost predicate Takes(v: End, v': End, m: Vector) {
    PortCmp(v.vec, m) && v' == End(true, m, v.log)
  }

  ghost predicate Rejects(v: End, v': End, m: Vector) {
    && !PortCmp(v.vec, m) && v'.blocked == v.blocked && v'.vec == v.vec
    && |v'.log| == |v.log| + 1 && v'.log[..|v.log|] == v.log
    && (!v.blocked ==> v'.log[|v.log|] == v.vec)
  }

  /** An end announces itself; nothing is delivered. */
  lemma SpeakKeeps(a: End, a': End, toB: nat, b: End, toA: nat, id: nat)
    requires LinkInv(a, toB, b, toA) && Side(a', id)
    requires a' == a || Speaks(a, a')
    ensures LinkInv(a', toB, b, toA)
  {
  }

  /** The next message from `a` arrives at `b`: it can only be taken if `a` is not blocked. */
  lemma DeliverKeeps(a: End, toB: nat, b: End, b': End, toA: nat, ida: nat, idb: nat)
    requires LinkInv(a, toB, b, toA) && toB < |a.log| && ida != idb
    requires Side(a, ida) && Side(b, idb) && Side(b', idb)
    requires Takes(b, b', a.log[toB]) || Rejects(b, b', a.log[toB])
    ensures LinkInv(a, toB + 1, b', toA)
  {
    var m := a.log[toB];
    if Takes(b, b', m) {
      assert !a.blocked;
      assert PortCmp(m, a.vec);
      forall k | toA <= k < |b.log|
        ensures !PortCmp(a.vec, b.log[k])
      {
        if !b.blocked {
          assert PortCmp(b.log[k], b.vec) && PortCmp(b.vec, m);
          assert b.log[k].switch == idb && a.vec.switch == ida;
        }
      }
    }
  }

  /** One step at both ends of a link. */
  lemma LinkMove(a: End, a': End, toB: nat, toB': nat, b: End, b': End, toA: nat, toA': nat, ida: nat, idb: nat)
    requires LinkInv(a, toB, b, toA) && ida != idb
    requires Side(a, ida) && Side(a', ida) && Side(b, idb) && Side(b', idb)
    requires
      || (toB' == toB && toA' == toA && (a' == a || Speaks(a, a')) && (b' == b || Speaks(b, b')))
      || (toB' == toB + 1 && toA' == toA && (a' == a || Speaks(a, a')) && toB < |a.log| &&
          (Takes(b, b', a.log[toB]) || Rejects(b, b', a.log[toB])))
      || (toB' == toB && toA' == toA + 1 && (b' == b || Speaks(b, b')) && toA < |b.log| &&
          (Takes(a, a', b.log[toA]) || Rejects(a, a', b.log[toA])))
    ensures LinkInv(a', toB', b', toA')
  {
    if toB' > toB {
      DeliverKeeps(a, toB, b, b', toA, ida, idb);
      SpeakKeeps(a, a', toB', b', toA, ida);
    } else if toA' > toA {
      DeliverKeeps(b, toA, a, a', toB, idb, ida);
      SpeakKeeps(b, b', toA', a', toB, idb);
    } else {
      SpeakKeeps(a, a', toB, b, toA, ida);
      SpeakKeeps(b, b', toA, a', toB, idb);
    }
  }

  /** Once everything sent has arrived, exactly one end is designated and both hold its vector. */
  lemma QuietLinkAgrees(a: End, toB: nat, b: End, toA: nat)
    requires LinkInv(a, toB, b, toA)
    requires toB == |a.log| && toA == |b.log| && (a.log != [] || b.log != [])
    ensures a.blocked != b.blocked
    ensures a.vec == b.vec
  {
  }
}
