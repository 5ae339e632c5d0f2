/** Addresses, of objects in memory or of blocks: lists of them, and the allocation of one that is not in use. */
module Addresses {

  ghost predicate NoDup<T>(s: seq<T>) {
    forall i, j :: 0 <= i < j < |s| ==> s[i] != s[j]
  }

  ghost function Members(s: seq<nat>): set<nat> {
    set x | x in s
  }

  /** A list without duplicates is as long as it has members. */
  lemma {:induction false} NoDupCount(s: seq<nat>)
    requires NoDup(s)
    ensures |Members(s)| == |s|
  {
    if s == [] {
      assert Members(s) == {};
    } else {
      var n := |s| - 1;
      NoDupCount(s[..n]);
      assert s == s[..n] + [s[n]];
      assert Members(s) == Members(s[..n]) + {s[n]};
    }
  }

  /** The addresses in use below `a`. */
  ghost function Below(used: set<nat>, a: nat): set<nat> {
    set r | r in used && r < a
  }

  method Malloc(used: set<nat>) returns (addr: nat)
    ensures addr != 0 && addr !in used
  {
    addr := 1;
    while addr in used
      invariant addr >= 1
      decreases |used - Below(used, addr)|
    {
      assert Below(used, addr + 1) == Below(used, addr) + {addr};
      assert used - Below(used, addr + 1) == (used - Below(used, addr)) - {addr};
      addr := addr + 1;
    }
  }
}
