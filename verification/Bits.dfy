/** Bitmaps as sequences of bits: the meaning that the word-level bitmap code is measured against. */
module Bits {

  /** The first clear bit at or after `start` and below `max`, or `max` if there is none. */
  function NextZero(bits: seq<bool>, max: nat, start: nat): (r: nat)
    requires max <= |bits|
    ensures r <= max
    ensures start <= max ==> start <= r
    ensures start <= r < max ==> !bits[r]
    ensures forall i :: start <= i < r ==> bits[i]
    decreases max - start
  {
    if start >= max then max
    else if !bits[start] then start
    else NextZero(bits, max, start + 1)
  }

  /** The bitmap with the bits of [from, from + len) all set to `v`, and the others kept. */
  function Filled(bits: seq<bool>, from: nat, len: nat, v: bool): (r: seq<bool>)
    requires from + len <= |bits|
    ensures |r| == |bits|
    ensures forall i :: 0 <= i < |bits| ==> r[i] == (if from <= i < from + len then v else bits[i])
  {
    seq(|bits|, i requires 0 <= i < |bits| => if from <= i < from + len then v else bits[i])
  }

  /** How many of the first `n` bits are clear. */
  function Zeros(bits: seq<bool>, n: nat): (z: nat)
    requires n <= |bits|
    ensures z <= n
  {
    if n == 0 then 0 else Zeros(bits, n - 1) + (if bits[n - 1] then 0 else 1)
  }

  lemma {:induction false} ZerosWitness(bits: seq<bool>, n: nat)
    requires n <= |bits|
    ensures Zeros(bits, n) > 0 <==> NextZero(bits, n, 0) < n
  {
    if n > 0 {
      ZerosWitness(bits, n - 1);
      var r := NextZero(bits, n - 1, 0);
      if r < n - 1 {
        assert !bits[r];
      }
    }
  }

  /** Filling a run of bits that all had the other value moves the count by the length of the run. */
  lemma {:induction false} ZerosFilled(bits: seq<bool>, n: nat, from: nat, len: nat, v: bool)
    requires n <= |bits| && from + len <= n
    requires forall i :: from <= i < from + len ==> bits[i] != v
    ensures Zeros(Filled(bits, from, len, v), n) == if v then Zeros(bits, n) - len else Zeros(bits, n) + len
    decreases n
  {
    if n > 0 {
      if from + len == n && len > 0 {
        ZerosFilled(bits, n - 1, from, len - 1, v);
        ZerosAgree(Filled(bits, from, len, v), Filled(bits, from, len - 1, v), n - 1);
      } else if len == 0 {
        assert Filled(bits, from, len, v) == bits;
      } else {
        ZerosFilled(bits, n - 1, from, len, v);
      }
    }
  }

  lemma {:induction false} ZerosAgree(a: seq<bool>, b: seq<bool>, n: nat)
    requires n <= |a| && n <= |b|
    requires forall i :: 0 <= i < n ==> a[i] == b[i]
    ensures Zeros(a, n) == Zeros(b, n)
  {
    if n > 0 {
      ZerosAgree(a, b, n - 1);
    }
  }

  /** The sum of the first `n` elements. */
  function Sum(s: seq<nat>, n: nat): nat
    requires n <= |s|
  {
    if n == 0 then 0 else Sum(s, n - 1) + s[n - 1]
  }

  lemma {:induction false} SumUpdate(s: seq<nat>, n: nat, i: nat, v: nat)
    requires n <= |s| && i < |s|
    ensures Sum(s[i := v], n) == if i < n then Sum(s, n) - s[i] + v else Sum(s, n)
    decreases n
  {
    if n > 0 {
      SumUpdate(s, n - 1, i, v);
    }
  }

  lemma {:induction false} SumZero(s: seq<nat>, n: nat)
    requires n <= |s|
    ensures Sum(s, n) == 0 <==> forall i :: 0 <= i < n ==> s[i] == 0
    decreases n
  {
    if n > 0 {
      SumZero(s, n - 1);
    }
  }
}
