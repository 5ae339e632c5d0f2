/**
 Bitmaps in memory, scanned and filled a word at a time: what the code does to the bits one by one.

 Memory is a sequence of 64-bit words.  A bitmap begins at any byte address, so its bits need not
 begin at a word boundary.
 */
module Bitmap {
  import opened Bits
  import opened Words

  type Mem = seq<Word>

  /** All bits of the memory in order. */
  function Flat(m: Mem): (bits: seq<bool>)
    ensures |bits| == BITS_PER_LONG * |m|
  {
    seq(BITS_PER_LONG * |m|, n requires 0 <= n < BITS_PER_LONG * |m| => m[n / BITS_PER_LONG][n % BITS_PER_LONG])
  }

  lemma FlatAt(m: Mem, k: nat, i: nat)
    requires k < |m| && i < BITS_PER_LONG
    ensures BITS_PER_LONG * k + i < |Flat(m)| && Flat(m)[BITS_PER_LONG * k + i] == m[k][i]
  {
  }

  /** `r` is the first bit with value `v` at or after `from`, or `size` if there is none before it. */
  ghost predicate FirstIs(bits: seq<bool>, v: bool, size: nat, from: nat, r: nat)
    requires size <= |bits|
  {
    if from >= size then r == size
    else from <= r <= size && (r < size ==> bits[r] == v) && forall i :: from <= i < r ==> bits[i] != v
  }

  /** The first clear bit as the bit-at-a-time search finds it. */
  lemma FirstIsNextZero(bits: seq<bool>, size: nat, from: nat, r: nat)
    requires size <= |bits| && FirstIs(bits, false, size, from, r)
    ensures r == NextZero(bits, size, from)
  {
  }

  // ---------------------------------------------------------------- searching

  /** The bits of the words from `base` on. */
  ghost function From(m: Mem, base: nat): seq<bool>
    requires base <= |m|
  {
    Flat(m)[BITS_PER_LONG * base..]
  }

  lemma FromAt(m: Mem, base: nat, k: nat, i: nat)
    requires base + k < |m| && i < BITS_PER_LONG
    ensures BITS_PER_LONG * k + i < |From(m, base)| && From(m, base)[BITS_PER_LONG * k + i] == m[base + k][i]
  {
    FlatAt(m, base + k, i);
  }

  /** No bit with value `v` in [offset, end). */
  ghost predicate Passed(bits: seq<bool>, v: bool, offset: nat, end: nat)
    requires end <= |bits|
  {
    forall i :: offset <= i < end ==> bits[i] != v
  }

  /** `tmp` shows, of the word at `base + k`, the bits equal to `v` in [low, high). */
  ghost predicate Shows(m: Mem, base: nat, v: bool, k: nat, low: nat, high: nat, tmp: Word)
    requires base + k < |m|
  {
    forall i :: 0 <= i < BITS_PER_LONG ==> tmp[i] == (low <= i < high && m[base + k][i] == v)
  }

  /** A set bit of the word shown is the bit looked for. */
  lemma FoundHere(m: Mem, base: nat, v: bool, size: nat, offset: nat, k: nat, low: nat, high: nat, tmp: Word, r: nat)
    requires base + k < |m| && size <= BITS_PER_LONG * (|m| - base) && BITS_PER_LONG * k + high <= size
    requires low < high <= BITS_PER_LONG && offset <= BITS_PER_LONG * k + low
    requires Passed(From(m, base), v, offset, BITS_PER_LONG * k + low)
    requires Shows(m, base, v, k, low, high, tmp) && LowestSet(tmp, r)
    ensures FirstIs(From(m, base), v, size, offset, BITS_PER_LONG * k + r)
  {
    FromAt(m, base, k, r);
    forall i | offset <= i < BITS_PER_LONG * k + r
      ensures From(m, base)[i] != v
    {
      if i >= BITS_PER_LONG * k + low {
        FromAt(m, base, k, i - BITS_PER_LONG * k);
        assert !tmp[i - BITS_PER_LONG * k];
      }
    }
  }

  /** If the word shown is zero, its bits are passed. */
  lemma NotHere(m: Mem, base: nat, v: bool, offset: nat, k: nat, low: nat, high: nat, tmp: Word)
    requires base + k < |m| && low < high <= BITS_PER_LONG && offset <= BITS_PER_LONG * k + low
    requires BITS_PER_LONG * k + high <= |From(m, base)|
    requires Passed(From(m, base), v, offset, BITS_PER_LONG * k + low)
    requires Shows(m, base, v, k, low, high, tmp) && tmp == ZERO
    ensures Passed(From(m, base), v, offset, BITS_PER_LONG * k + high)
  {
    forall i | offset <= i < BITS_PER_LONG * k + high
      ensures From(m, base)[i] != v
    {
      if i >= BITS_PER_LONG * k + low {
        FromAt(m, base, k, i - BITS_PER_LONG * k);
        assert ZERO[i - BITS_PER_LONG * k] == false;
      }
    }
  }

  /** The first set bit of the last, possibly cut, word of the bitmap, or the end of the bitmap. */
  method LastBit(m: Mem, base: nat, size: nat, ghost offset: nat, tmp0: Word, result: nat, left: nat, ghost k: nat, ghost low: nat)
    returns (r: nat)
    requires base + k < |m| && size <= BITS_PER_LONG * (|m| - base) && result == BITS_PER_LONG * k && result + left == size
    requires low < left <= BITS_PER_LONG && offset <= result + low && offset < size
    requires Passed(From(m, base), true, offset, result + low) && Shows(m, base, true, k, low, BITS_PER_LONG, tmp0)
    ensures FirstIs(From(m, base), true, size, offset, r)
  {
    var tmp := And(tmp0, Shr(ONES, BITS_PER_LONG - left));
    assert Shows(m, base, true, k, low, left, tmp);
    if tmp == ZERO {
      NotHere(m, base, true, offset, k, low, left, tmp);
      return result + left;
    }
    r := Ffs(tmp);
    FoundHere(m, base, true, size, offset, k, low, left, tmp, r);
    r := result + r;
  }

  /** The first set bit in the words from the `p0`-th on, all bits from `offset` up to there being passed. */
  method ScanBits(m: Mem, base: nat, size: nat, ghost offset: nat, result0: nat, left0: nat, p0: nat) returns (r: nat)
    requires base <= |m| && size <= BITS_PER_LONG * (|m| - base)
    requires result0 == BITS_PER_LONG * p0 && result0 + left0 == size && offset <= result0 && offset < size
    requires Passed(From(m, base), true, offset, result0)
    ensures FirstIs(From(m, base), true, size, offset, r)
  {
    var result, left, p := result0, left0, p0;
    while left >= BITS_PER_LONG
      invariant result == BITS_PER_LONG * p && result + left == size && offset <= result && left >= 0
      invariant Passed(From(m, base), true, offset, result)
    {
      var tmp := m[base + p];
      if tmp != ZERO {
        r := Ffs(tmp);
        FoundHere(m, base, true, size, offset, p, 0, BITS_PER_LONG, tmp, r);
        return result + r;
      }
      NotHere(m, base, true, offset, p, 0, BITS_PER_LONG, tmp);
      p, left, result := p + 1, left - BITS_PER_LONG, result + BITS_PER_LONG;
    }
    if left == 0 {
      return result;
    }
    r := LastBit(m, base, size, offset, m[base + p], result, left, p, 0);
  }

  /** The first set bit at or after `offset`, or `size`. */
  method FindNextBit(m: Mem, base: nat, size: nat, offset: nat) returns (r: nat)
    requires base <= |m| && size <= BITS_PER_LONG * (|m| - base)
    ensures FirstIs(From(m, base), true, size, offset, r)
  {
    if offset >= size {
      return size;
    }
    var result, low := offset - offset % BITS_PER_LONG, offset % BITS_PER_LONG;
    var p, left := offset / BITS_PER_LONG, size - result;
    if low != 0 {
      var tmp := And(m[base + p], Shl(ONES, low));
      assert Shows(m, base, true, p, low, BITS_PER_LONG, tmp);
      if left < BITS_PER_LONG {
        r := LastBit(m, base, size, offset, tmp, result, left, p, low);
        return;
      }
      if tmp != ZERO {
        r := Ffs(tmp);
        FoundHere(m, base, true, size, offset, p, low, BITS_PER_LONG, tmp, r);
        return result + r;
      }
      NotHere(m, base, true, offset, p, low, BITS_PER_LONG, tmp);
      p, left, result := p + 1, left - BITS_PER_LONG, result + BITS_PER_LONG;
    }
    r := ScanBits(m, base, size, offset, result, left, p);
  }

  /** The first clear bit of the last, possibly cut, word of the bitmap, or the end of the bitmap. */
  method LastZeroBit(m: Mem, base: nat, size: nat, ghost offset: nat, tmp0: Word, result: nat, left: nat, ghost k: nat, ghost low: nat)
    returns (r: nat)
    requires base + k < |m| && size <= BITS_PER_LONG * (|m| - base) && result == BITS_PER_LONG * k && result + left == size
    requires low < left <= BITS_PER_LONG && offset <= result + low && offset < size
    requires Passed(From(m, base), false, offset, result + low) && Shows(m, base, false, k, low, BITS_PER_LONG, Not(tmp0))
    ensures FirstIs(From(m, base), false, size, offset, r)
  {
    var tmp := Or(tmp0, Shl(ONES, left));
    forall i | 0 <= i < BITS_PER_LONG
      ensures Not(tmp)[i] == (Not(tmp0)[i] && i < left)
    {
    }
    assert Shows(m, base, false, k, low, left, Not(tmp));
    if tmp == ONES {
      assert Not(tmp) == ZERO;
      NotHere(m, base, false, offset, k, low, left, Not(tmp));
      return result + left;
    }
    r := ZeroHere(m, base, size, offset, tmp, k, low, left);
    r := result + r;
  }

  /** The first clear bit of a word that has one. */
  method ZeroHere(m: Mem, base: nat, ghost size: nat, ghost offset: nat, tmp: Word, ghost k: nat, ghost low: nat, ghost high: nat)
    returns (r: nat)
    requires base + k < |m| && size <= BITS_PER_LONG * (|m| - base) && BITS_PER_LONG * k + high <= size
    requires low < high <= BITS_PER_LONG && offset <= BITS_PER_LONG * k + low
    requires Passed(From(m, base), false, offset, BITS_PER_LONG * k + low)
    requires Shows(m, base, false, k, low, high, Not(tmp)) && tmp != ONES
    ensures FirstIs(From(m, base), false, size, offset, BITS_PER_LONG * k + r)
  {
    r := Ffz(tmp);
    assert Not(tmp)[r] && forall i :: 0 <= i < r ==> !Not(tmp)[i];
    FoundHere(m, base, false, size, offset, k, low, high, Not(tmp), r);
  }

  lemma AllOnes(w: Word)
    ensures w == ONES <==> Not(w) == ZERO
  {
    if Not(w) == ZERO {
      forall i | 0 <= i < BITS_PER_LONG
        ensures w[i]
      {
        assert Not(w)[i] == ZERO[i];
      }
    }
  }

  /** The first clear bit in the words from the `p0`-th on, all bits from `offset` up to there being passed. */
  method ScanZeroBits(m: Mem, base: nat, size: nat, ghost offset: nat, result0: nat, left0: nat, p0: nat) returns (r: nat)
    requires base <= |m| && size <= BITS_PER_LONG * (|m| - base)
    requires result0 == BITS_PER_LONG * p0 && result0 + left0 == size && offset <= result0 && offset < size
    requires Passed(From(m, base), false, offset, result0)
    ensures FirstIs(From(m, base), false, size, offset, r)
  {
    var result, left, p := result0, left0, p0;
    while left >= BITS_PER_LONG
      invariant result == BITS_PER_LONG * p && result + left == size && offset <= result && left >= 0
      invariant Passed(From(m, base), false, offset, result)
    {
      var tmp := m[base + p];
      AllOnes(tmp);
      if Not(tmp) != ZERO {
        r := ZeroHere(m, base, size, offset, tmp, p, 0, BITS_PER_LONG);
        return result + r;
      }
      NotHere(m, base, false, offset, p, 0, BITS_PER_LONG, Not(tmp));
      p, left, result := p + 1, left - BITS_PER_LONG, result + BITS_PER_LONG;
    }
    if left == 0 {
      return result;
    }
    r := LastZeroBit(m, base, size, offset, m[base + p], result, left, p, 0);
  }

  /** The first clear bit at or after `offset`, or `size`. */
  method FindNextZeroBit(m: Mem, base: nat, size: nat, offset: nat) returns (r: nat)
    requires base <= |m| && size <= BITS_PER_LONG * (|m| - base)
    ensures FirstIs(From(m, base), false, size, offset, r)
  {
    if offset >= size {
      return size;
    }
    var result, low := offset - offset % BITS_PER_LONG, offset % BITS_PER_LONG;
    var p, left := offset / BITS_PER_LONG, size - result;
    if low != 0 {
      var tmp := Or(m[base + p], Shr(ONES, BITS_PER_LONG - low));
      assert Shows(m, base, false, p, low, BITS_PER_LONG, Not(tmp));
      if left < BITS_PER_LONG {
        r := LastZeroBit(m, base, size, offset, tmp, result, left, p, low);
        return;
      }
      AllOnes(tmp);
      if Not(tmp) != ZERO {
        r := ZeroHere(m, base, size, offset, tmp, p, low, BITS_PER_LONG);
        return result + r;
      }
      NotHere(m, base, false, offset, p, low, BITS_PER_LONG, Not(tmp));
      p, left, result := p + 1, left - BITS_PER_LONG, result + BITS_PER_LONG;
    }
    r := ScanZeroBits(m, base, size, offset, result, left, p);
  }

  // ---------------------------------------------------------------- bitmaps at a byte address

  /** The `n` bits from byte address `addr` on. */
  ghost function Window(m: Mem, addr: nat, n: nat): seq<bool>
    requires 8 * addr + n <= BITS_PER_LONG * |m|
  {
    Flat(m)[8 * addr..8 * addr + n]
  }

  /** A position in the words from the aligned address on, as a position in the bitmap. */
  lemma Shifted(m: Mem, addr: nat, max: nat, start: nat, v: bool, r: nat)
    requires 8 * addr + max <= BITS_PER_LONG * |m|
    requires var base, fix := addr / 8, addr % 8 * 8;
             max + fix <= |From(m, base)| && FirstIs(From(m, base), v, max + fix, start + fix, r)
    ensures r >= addr % 8 * 8 && FirstIs(Window(m, addr, max), v, max, start, r - addr % 8 * 8)
  {
    var base, fix, w := addr / 8, addr % 8 * 8, Window(m, addr, max);
    forall i | 0 <= i < max
      ensures w[i] == From(m, base)[i + fix]
    {
    }
    if start < max {
      forall i | start <= i < r - fix
        ensures w[i] != v
      {
        assert From(m, base)[i + fix] != v;
      }
    }
  }

  /** The first clear bit of a bitmap at any byte address. */
  method MbFindNextZeroBit(m: Mem, addr: nat, max: nat, start: nat) returns (r: nat)
    requires 8 * addr + max <= BITS_PER_LONG * |m|
    ensures r == NextZero(Window(m, addr, max), max, start)
  {
    var fix := addr % 8 * 8;
    r := FindNextZeroBit(m, addr / 8, max + fix, start + fix);
    Shifted(m, addr, max, start, false, r);
    r := r - fix;
    if r > max {
      r := max;
    }
    FirstIsNextZero(Window(m, addr, max), max, start, r);
  }

  /** The first set bit of a bitmap at any byte address. */
  method MbFindNextBit(m: Mem, addr: nat, max: nat, start: nat) returns (r: nat)
    requires 8 * addr + max <= BITS_PER_LONG * |m|
    ensures FirstIs(Window(m, addr, max), true, max, start, r)
  {
    var fix := addr % 8 * 8;
    r := FindNextBit(m, addr / 8, max + fix, start + fix);
    Shifted(m, addr, max, start, true, r);
    r := r - fix;
    if r > max {
      r := max;
    }
  }

  /** The number of clear bits in a row from `start` on. */
  ghost function ZeroRun(bits: seq<bool>, max: nat, start: nat): nat
    requires max <= |bits|
    decreases max - start
  {
    if start >= max || bits[start] then 0 else 1 + ZeroRun(bits, max, start + 1)
  }

  method MbFindZeroRunLen(m: Mem, addr: nat, max: nat, start: nat) returns (len: int)
    requires 8 * addr + max <= BITS_PER_LONG * |m|
    ensures len == start + 1 - NextZero(Window(m, addr, max), max, start)
    ensures var bits := Window(m, addr, max);
            len == ZeroRun(bits, max, start) <==> start < max && (start + 1 == max || bits[start + 1] != bits[start])
  {
    var z := MbFindNextZeroBit(m, addr, max, start);
    len := start + 1 - z;
    RunLenExact(Window(m, addr, max), max, start);
  }

  /**
   What that computes is not the length of the run of clear bits, which its name promises: it is
   right exactly when the start is inside the bitmap and the next bit differs from the start bit or
   the bitmap ends there, that is, for runs of one clear bit and for a single set bit.
   */
  lemma RunLenExact(bits: seq<bool>, max: nat, start: nat)
    requires max <= |bits|
    ensures start + 1 - NextZero(bits, max, start) == ZeroRun(bits, max, start) <==>
            start < max && (start + 1 == max || bits[start + 1] != bits[start])
  {
    var z := NextZero(bits, max, start);
    if start + 1 < max && bits[start] {
      assert NextZero(bits, max, start) == NextZero(bits, max, start + 1);
    }
  }

  /** Two clear bits are a run of two, but the length computed is 1. */
  lemma RunLenExample()
    ensures var bits := [false, false]; 0 + 1 - NextZero(bits, 2, 0) == 1 && ZeroRun(bits, 2, 0) == 2
  {
    assert ZeroRun([false, false], 2, 1) == 1 + ZeroRun([false, false], 2, 2);
  }

  // ---------------------------------------------------------------- filling

  /** A 32-bit store at bit position `at` that makes all its bits `v`. */
  function Store32(m: Mem, at: nat, v: bool): Mem {
    seq(|m|, k requires 0 <= k < |m| =>
      seq(BITS_PER_LONG, i requires 0 <= i < BITS_PER_LONG => if at <= BITS_PER_LONG * k + i < at + 32 then v else m[k][i]))
  }

  lemma Store32Flat(m: Mem, at: nat, v: bool)
    requires at + 32 <= BITS_PER_LONG * |m|
    ensures Flat(Store32(m, at, v)) == Bits.Filled(Flat(m), at, 32, v)
  {
  }

  /** Sets bit `nr` by or-ing a mask into its word, or clears it by and-ing the inverse. */
  function PutBit(m: Mem, nr: nat, v: bool): Mem
    requires nr < BITS_PER_LONG * |m|
  {
    var k, mask := nr / BITS_PER_LONG, Shl(Low(1), nr % BITS_PER_LONG);
    m[k := if v then Or(m[k], mask) else And(m[k], Not(mask))]
  }

  lemma PutBitFlat(m: Mem, nr: nat, v: bool)
    requires nr < BITS_PER_LONG * |m|
    ensures Flat(PutBit(m, nr, v)) == Bits.Filled(Flat(m), nr, 1, v)
  {
  }

  lemma FillMore(bits: seq<bool>, from: nat, len: nat, more: nat, v: bool)
    requires from + len + more <= |bits|
    ensures Bits.Filled(Bits.Filled(bits, from, len, v), from + len, more, v) == Bits.Filled(bits, from, len + more, v)
  {
  }

  class Memory {
    var words: Mem

    constructor (words: Mem)
      ensures this.words == words
    {
      this.words := words;
    }

    /** Stores 32 equal bits at the byte address of bit `c`, the next of the run from `from` on. */
    method PutHalf(addr: nat, c: nat, v: bool, ghost bits: seq<bool>, ghost from: nat, ghost len: nat)
      requires c % 32 == 0 && 8 * addr + c + 32 <= BITS_PER_LONG * |words| && from + len == 8 * addr + c && |bits| == BITS_PER_LONG * |words|
      requires Flat(words) == Bits.Filled(bits, from, len, v)
      modifies this`words
      ensures |words| == |old(words)| && Flat(words) == Bits.Filled(bits, from, len + 32, v)
    {
      var at := 8 * (addr + c / 8);
      WholeByte(addr, c);
      Store32Flat(words, at, v);
      FillMore(bits, from, len, 32, v);
      words := Store32(words, at, v);
    }

    /** Stores bit `c`, the next of the run from `from` on. */
    method PutNext(addr: nat, c: nat, v: bool, ghost bits: seq<bool>, ghost from: nat, ghost len: nat)
      requires 8 * addr + c < BITS_PER_LONG * |words| && from + len == 8 * addr + c && |bits| == BITS_PER_LONG * |words|
      requires Flat(words) == Bits.Filled(bits, from, len, v)
      modifies this`words
      ensures |words| == |old(words)| && Flat(words) == Bits.Filled(bits, from, len + 1, v)
    {
      PutBitFlat(words, 8 * addr + c, v);
      FillMore(bits, from, len, 1, v);
      words := PutBit(words, 8 * addr + c, v);
    }

    /** Gives all bits of [cur, cur + len) of the bitmap the value `v`, 32 at a time where it can. */
    method MbFillBits(addr: nat, cur: nat, len: nat, v: bool)
      requires 8 * addr + cur + len <= BITS_PER_LONG * |words|
      modifies this`words
      ensures |words| == |old(words)|
      ensures Flat(words) == Bits.Filled(old(Flat(words)), 8 * addr + cur, len, v)
    {
      var c, end := cur, cur + len;
      ghost var bits, from := Flat(words), 8 * addr + cur;
      FillNone(bits, from, v);
      while c < end
        invariant cur <= c <= end && |words| == |old(words)|
        invariant Flat(words) == Bits.Filled(bits, from, c - cur, v)
      {
        if c % 32 == 0 && end - c >= 32 {
          PutHalf(addr, c, v, bits, from, c - cur);
          c := c + 32;
        } else {
          PutNext(addr, c, v, bits, from, c - cur);
          c := c + 1;
        }
      }
    }

    /** Clears a range of bits and returns the first one that was clear already, or -1. */
    method MbTestAndClearBits(addr: nat, cur: nat, len: nat) returns (zeroBit: int)
      requires 8 * addr + cur + len <= BITS_PER_LONG * |words|
      modifies this`words
      ensures |words| == |old(words)|
      ensures Flat(words) == Bits.Filled(old(Flat(words)), 8 * addr + cur, len, false)
      ensures FirstClear(old(Flat(words)), 8 * addr, cur, cur + len, zeroBit)
    {
      zeroBit := -1;
      var c, end := cur, cur + len;
      ghost var bits, from := Flat(words), 8 * addr + cur;
      FillNone(bits, from, false);
      while c < end
        invariant cur <= c <= end && |words| == |old(words)|
        invariant Flat(words) == Bits.Filled(bits, from, c - cur, false)
        invariant FirstClear(bits, 8 * addr, cur, c, zeroBit)
      {
        if c % 32 == 0 && end - c >= 32 {
          zeroBit := ClearHalf(addr, c, bits, from, c - cur, zeroBit, cur);
          c := c + 32;
        } else {
          zeroBit := ClearNext(addr, c, bits, from, c - cur, zeroBit, cur);
          c := c + 1;
        }
      }
    }

    /** Clears the next 32 bits. */
    method ClearHalf(addr: nat, c: nat, ghost bits: seq<bool>, ghost from: nat, ghost len: nat, zeroBit: int, ghost cur: nat)
      returns (zeroBit': int)
      requires c % 32 == 0 && 8 * addr + c + 32 <= BITS_PER_LONG * |words| && from + len == 8 * addr + c && |bits| == BITS_PER_LONG * |words|
      requires Flat(words) == Bits.Filled(bits, from, len, false) && cur <= c && FirstClear(bits, 8 * addr, cur, c, zeroBit)
      modifies this`words
      ensures |words| == |old(words)| && Flat(words) == Bits.Filled(bits, from, len + 32, false)
      ensures FirstClear(bits, 8 * addr, cur, c + 32, zeroBit')
    {
      var z := ZeroInHalf(addr, c, bits, from, len);
      FirstClearMore(bits, 8 * addr, cur, c, 32, zeroBit, z);
      zeroBit' := if z < 32 && zeroBit == -1 then c + z else zeroBit;
      PutHalf(addr, c, false, bits, from, len);
    }

    method TestBit(nr: nat) returns (v: bool)
      requires nr < BITS_PER_LONG * |words|
      ensures v == Flat(words)[nr]
    {
      v := words[nr / BITS_PER_LONG][nr % BITS_PER_LONG];
      FlatAt(words, nr / BITS_PER_LONG, nr % BITS_PER_LONG);
    }

    /** Clears the next bit. */
    method ClearNext(addr: nat, c: nat, ghost bits: seq<bool>, ghost from: nat, ghost len: nat, zeroBit: int, ghost cur: nat)
      returns (zeroBit': int)
      requires 8 * addr + c < BITS_PER_LONG * |words| && from + len == 8 * addr + c && |bits| == BITS_PER_LONG * |words|
      requires Flat(words) == Bits.Filled(bits, from, len, false) && cur <= c && FirstClear(bits, 8 * addr, cur, c, zeroBit)
      modifies this`words
      ensures |words| == |old(words)| && Flat(words) == Bits.Filled(bits, from, len + 1, false)
      ensures FirstClear(bits, 8 * addr, cur, c + 1, zeroBit')
    {
      var wasSet := TestBit(8 * addr + c);
      FirstClearNext(bits, from, len, 8 * addr, cur, c, zeroBit);
      zeroBit' := if !wasSet && zeroBit == -1 then c else zeroBit;
      PutNext(addr, c, false, bits, from, len);
    }

    /** The first clear one of the next 32 bits, which are as they were in `bits`. */
    method ZeroInHalf(addr: nat, c: nat, ghost bits: seq<bool>, ghost from: nat, ghost len: nat) returns (z: nat)
      requires c % 32 == 0 && 8 * addr + c + 32 <= BITS_PER_LONG * |words| && from + len == 8 * addr + c && |bits| == BITS_PER_LONG * |words|
      requires Flat(words) == Bits.Filled(bits, from, len, false)
      ensures NextClear(bits, 8 * addr + c, 32, z)
    {
      var byte := addr + c / 8;
      WholeByte(addr, c);
      z := MbFindNextZeroBit(words, byte, 32, 0);
      HalfZero(words, byte, bits, from, len, z);
    }
  }

  lemma WholeByte(addr: nat, c: nat)
    requires c % 32 == 0
    ensures 8 * (addr + c / 8) == 8 * addr + c
  {
  }

  /** `z` is the first clear one of `n` bits from `at` on, or `n`. */
  ghost predicate NextClear(bits: seq<bool>, at: nat, n: nat, z: nat)
    requires at + n <= |bits|
  {
    z <= n && (forall i :: at <= i < at + z ==> bits[i]) && (z < n ==> !bits[at + z])
  }

  lemma FirstClearNext(bits: seq<bool>, from: nat, len: nat, at: nat, cur: nat, c: nat, z: int)
    requires from + len == at + c < |bits| && cur <= c && FirstClear(bits, at, cur, c, z)
    ensures FirstClear(bits, at, cur, c + 1, if !Bits.Filled(bits, from, len, false)[from + len] && z == -1 then c else z)
  {
    NotYetFilled(bits, from, len);
    FirstClearMore(bits, at, cur, c, 1, z, if bits[at + c] then 1 else 0);
  }

  lemma NotYetFilled(bits: seq<bool>, from: nat, len: nat)
    requires from + len < |bits|
    ensures Bits.Filled(bits, from, len, false)[from + len] == bits[from + len]
  {
  }

  lemma FillNone(bits: seq<bool>, from: nat, v: bool)
    requires from <= |bits|
    ensures Bits.Filled(bits, from, 0, v) == bits
  {
  }

  /** `z` is the first clear bit of [cur, end) of the bitmap at bit position `at`, or -1 if there is none. */
  ghost predicate FirstClear(bits: seq<bool>, at: nat, cur: nat, end: nat, z: int)
    requires at + end <= |bits|
  {
    if z == -1 then forall i :: at + cur <= i < at + end ==> bits[i]
    else cur <= z < end && !bits[at + z] && forall i :: at + cur <= i < at + z ==> bits[i]
  }

  /** The first clear bit of a longer range, from that of the range so far and that of the next `n` bits. */
  lemma FirstClearMore(bits: seq<bool>, at: nat, cur: nat, c: nat, n: nat, z: int, next: nat)
    requires cur <= c && at + c + n <= |bits| && FirstClear(bits, at, cur, c, z) && NextClear(bits, at + c, n, next)
    ensures FirstClear(bits, at, cur, c + n, if next < n && z == -1 then c + next else z)
  {
  }

  /** The 32 bits not yet cleared are as they were. */
  lemma HalfWord(m: Mem, addr: nat, bits: seq<bool>, from: nat, len: nat)
    requires 8 * addr + 32 <= BITS_PER_LONG * |m| == |bits| && from + len == 8 * addr
    requires Flat(m) == Bits.Filled(bits, from, len, false)
    ensures Window(m, addr, 32) == bits[8 * addr..8 * addr + 32]
  {
  }

  lemma HalfZero(m: Mem, addr: nat, bits: seq<bool>, from: nat, len: nat, z: nat)
    requires 8 * addr + 32 <= BITS_PER_LONG * |m| == |bits| && from + len == 8 * addr
    requires Flat(m) == Bits.Filled(bits, from, len, false) && z == NextZero(Window(m, addr, 32), 32, 0)
    ensures NextClear(bits, 8 * addr, 32, z)
  {
    HalfWord(m, addr, bits, from, len);
    ZeroInSlice(bits, 8 * addr, z);
  }

  lemma ZeroInSlice(bits: seq<bool>, at: nat, z: nat)
    requires at + 32 <= |bits| && z == NextZero(bits[at..at + 32], 32, 0)
    ensures NextClear(bits, at, 32, z)
  {
    var w := bits[at..at + 32];
    forall i | at <= i < at + z
      ensures bits[i]
    {
      assert w[i - at];
    }
  }
}
