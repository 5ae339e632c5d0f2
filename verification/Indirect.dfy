/** The block map of files without extents: direct, indirect, double and triple indirect blocks. */
module Indirect {
  import opened Arithmetic

  /* Block pointers in the inode itself, and the slots of the three index blocks. */
  const NDIR_BLOCKS: nat := 12
  const IND_BLOCK: nat := 12
  const DIND_BLOCK: nat := 13
  const TIND_BLOCK: nat := 14

  /** Where the pointer to a logical block is kept: slots to follow from the inode on. */
  datatype Place =
    | Direct(i: nat)
    | Ind(i: nat)
    | Dind(i: nat, j: nat)
    | Tind(i: nat, j: nat, k: nat)

  /** All slots lie inside their blocks of `a` pointers. */
  predicate InRange(a: nat, p: Place) {
    match p
    case Direct(i) => i < NDIR_BLOCKS
    case Ind(i) => i < a
    case Dind(i, j) => i < a && j < a
    case Tind(i, j, k) => i < a && j < a && k < a
  }

  function MaxInd(a: nat): nat {
    NDIR_BLOCKS + a
  }

  function MaxDind(a: nat): nat {
    MaxInd(a) + a * a
  }

  function MaxTind(a: nat): nat {
    MaxDind(a) + a * a * a
  }

  /** The reads of the source; `read(b, i)` is the i-th pointer stored in block `b`. */
  function GetInd(read: (nat, nat) -> nat, a: nat, l: nat, block: nat): nat {
    read(block, l)
  }

  function GetDind(read: (nat, nat) -> nat, a: nat, l: nat, block: nat): nat
    requires a > 0
  {
    GetInd(read, a, l % a, read(block, l / a))
  }

  function GetTind(read: (nat, nat) -> nat, a: nat, l: nat, block: nat): nat
    requires a > 0
  {
    Positive(a);
    GetDind(read, a, l % (a * a), read(block, l / (a * a)))
  }

  lemma Positive(a: nat)
    requires a > 0
    ensures a * a > 0
  {
  }

  function GetPblock(read: (nat, nat) -> nat, data: seq<nat>, a: nat, l: nat): nat
    requires a > 0 && |data| > TIND_BLOCK && l < MaxTind(a)
  {
    if l < NDIR_BLOCKS then data[l]
    else if l < MaxInd(a) then GetInd(read, a, l - NDIR_BLOCKS, data[IND_BLOCK])
    else if l < MaxDind(a) then GetDind(read, a, l - MaxInd(a), data[DIND_BLOCK])
    else GetTind(read, a, l - MaxDind(a), data[TIND_BLOCK])
  }

  // ---------------------------------------------------------------- places

  /** The place of a logical block. */
  function PlaceOf(a: nat, l: nat): Place
    requires a > 0
  {
    Positive(a);
    if l < NDIR_BLOCKS then Direct(l)
    else if l < MaxInd(a) then Ind(l - NDIR_BLOCKS)
    else if l < MaxDind(a) then Dind((l - MaxInd(a)) / a, (l - MaxInd(a)) % a)
    else TindPlace(l - MaxDind(a), a, a * a)
  }

  /** The place of the m-th triple indirect block; `sq` is a * a. */
  function TindPlace(m: nat, a: nat, sq: nat): Place
    requires a > 0 && sq > 0
  {
    Tind(m / sq, m % sq / a, m % sq % a)
  }

  function TindNumber(i: nat, j: nat, k: nat, a: nat, sq: nat): nat {
    i * sq + j * a + k
  }

  /** The logical block of a place. */
  function BlockOf(a: nat, p: Place): nat {
    match p
    case Direct(i) => i
    case Ind(i) => NDIR_BLOCKS + i
    case Dind(i, j) => MaxInd(a) + i * a + j
    case Tind(i, j, k) => MaxDind(a) + TindNumber(i, j, k, a, a * a)
  }

  /** Following the slots of a place from the inode. */
  function Follow(read: (nat, nat) -> nat, data: seq<nat>, p: Place): nat
    requires |data| > TIND_BLOCK && (p.Direct? ==> p.i < NDIR_BLOCKS)
  {
    match p
    case Direct(i) => data[i]
    case Ind(i) => read(data[IND_BLOCK], i)
    case Dind(i, j) => read(read(data[DIND_BLOCK], i), j)
    case Tind(i, j, k) => read(read(read(data[TIND_BLOCK], i), j), k)
  }

  /** The two digits of a number below a * a. */
  lemma TwoDigits(a: nat, i: nat, j: nat)
    requires i < a && j < a
    ensures i * a + j < a * a
    ensures (i * a + j) / a == i && (i * a + j) % a == j
  {
    DivMod(a, i, j);
    Below(a, a, i, j);
  }

  lemma Below(a: nat, n: nat, i: nat, j: nat)
    requires i < n && j < a
    ensures i * a + j < n * a
  {
    NextMultiple(a, i);
    assert (i + 1) * a <= n * a by { MulLe(i + 1, n, a); }
  }

  lemma MulLe(x: nat, y: nat, a: nat)
    requires x <= y
    ensures x * a <= y * a
  {
  }

  /** Every place in range is the place of its block, which is below the limit. */
  lemma PlaceOfBlock(a: nat, p: Place)
    requires a > 0 && InRange(a, p)
    ensures BlockOf(a, p) < MaxTind(a) && PlaceOf(a, BlockOf(a, p)) == p
  {
    match p
    case Direct(i) =>
    case Ind(i) =>
    case Dind(i, j) =>
      DindPlace(a, i, j);
    case Tind(i, j, k) =>
      TindPlaceOf(a, i, j, k);
  }

  lemma DindPlace(a: nat, i: nat, j: nat)
    requires a > 0 && i < a && j < a
    ensures BlockOf(a, Dind(i, j)) < MaxTind(a) && PlaceOf(a, BlockOf(a, Dind(i, j))) == Dind(i, j)
  {
    TwoDigits(a, i, j);
  }

  lemma TindPlaceOf(a: nat, i: nat, j: nat, k: nat)
    requires a > 0 && i < a && j < a && k < a
    ensures BlockOf(a, Tind(i, j, k)) < MaxTind(a) && PlaceOf(a, BlockOf(a, Tind(i, j, k))) == Tind(i, j, k)
  {
    ThreeDigits(a, a * a, i, j, k);
    Cube(a);
  }

  /** The three digits of a number below a * a * a; `sq` is a * a. */
  lemma ThreeDigits(a: nat, sq: nat, i: nat, j: nat, k: nat)
    requires i < a && j < a && k < a && sq == a * a
    ensures var m := TindNumber(i, j, k, a, sq);
            sq > 0 && m < a * sq && TindPlace(m, a, sq) == Tind(i, j, k)
  {
    TwoDigits(a, j, k);
    DivMod(sq, i, j * a + k);
    Below(sq, a, i, j * a + k);
  }

  lemma Cube(a: nat)
    ensures a * (a * a) == a * a * a
  {
  }

  /** Every block below the limit is the block of its place, and all slots are inside their blocks. */
  lemma BlockOfPlace(a: nat, l: nat)
    requires a > 0 && l < MaxTind(a)
    ensures InRange(a, PlaceOf(a, l)) && BlockOf(a, PlaceOf(a, l)) == l
  {
    Positive(a);
    if MaxInd(a) <= l < MaxDind(a) {
      Quotient(l - MaxInd(a), a, a);
    } else if MaxDind(a) <= l {
      var m := l - MaxDind(a);
      Cube(a);
      Quotient(m, a * a, a);
      Quotient(m % (a * a), a, a);
    }
  }

  /** The source reads exactly along the place of the block. */
  lemma FollowsPlace(read: (nat, nat) -> nat, data: seq<nat>, a: nat, l: nat)
    requires a > 0 && |data| > TIND_BLOCK && l < MaxTind(a)
    ensures GetPblock(read, data, a, l) == Follow(read, data, PlaceOf(a, l))
  {
    Positive(a);
  }

  /** Different blocks have different places. */
  lemma PlacesDiffer(a: nat, l: nat, m: nat)
    requires a > 0 && l < MaxTind(a) && m < MaxTind(a) && l != m
    ensures PlaceOf(a, l) != PlaceOf(a, m)
  {
    BlockOfPlace(a, l);
    BlockOfPlace(a, m);
  }

  // ---------------------------------------------------------------- the pointers in order

  /** The pointers stored in a block, in order. */
  function Slots(read: (nat, nat) -> nat, a: nat, block: nat): seq<nat> {
    seq(a, i requires 0 <= i < a => read(block, i))
  }

  /** The pointers stored in several blocks, block after block. */
  function AllSlots(read: (nat, nat) -> nat, a: nat, blocks: seq<nat>): seq<nat> {
    if blocks == [] then [] else Slots(read, a, blocks[0]) + AllSlots(read, a, blocks[1..])
  }

  /** All block pointers of a file: those in the inode, then those behind one, two and three levels of index blocks. */
  function FilePointers(read: (nat, nat) -> nat, data: seq<nat>, a: nat): seq<nat>
    requires |data| == 15
  {
    var ind, dind, tind := Slots(read, a, data[12]), Slots(read, a, data[13]), Slots(read, a, data[14]);
    data[..12] + ind + AllSlots(read, a, dind) + AllSlots(read, a, AllSlots(read, a, tind))
  }

  lemma {:induction false} AllSlotsAt(read: (nat, nat) -> nat, a: nat, blocks: seq<nat>, q: nat, r: nat)
    requires q < |blocks| && r < a
    ensures q * a + r < |AllSlots(read, a, blocks)| && AllSlots(read, a, blocks)[q * a + r] == read(blocks[q], r)
  {
    if q > 0 {
      AllSlotsAt(read, a, blocks[1..], q - 1, r);
      NextMultiple(a, q - 1);
    }
  }

  lemma {:induction false} AllSlotsLength(read: (nat, nat) -> nat, a: nat, blocks: seq<nat>)
    ensures |AllSlots(read, a, blocks)| == |blocks| * a
  {
    if blocks != [] {
      AllSlotsLength(read, a, blocks[1..]);
      NextMultiple(a, |blocks| - 1);
    }
  }

  lemma Digits(m: nat, b: nat, n: nat) returns (q: nat, r: nat)
    requires b > 0 && m < b * n
    ensures q == m / b && r == m % b && q < n && r < b && m == q * b + r
  {
    Quotient(m, b, n);
    q, r := m / b, m % b;
  }

  lemma DindAt(read: (nat, nat) -> nat, a: nat, m: nat, block: nat)
    requires a > 0 && m < a * a
    ensures m < |AllSlots(read, a, Slots(read, a, block))| && AllSlots(read, a, Slots(read, a, block))[m] == GetDind(read, a, m, block)
  {
    var i, j := Digits(m, a, a);
    AllSlotsAt(read, a, Slots(read, a, block), i, j);
  }

  lemma TindAt(read: (nat, nat) -> nat, a: nat, m: nat, block: nat)
    requires a > 0 && m < a * a * a
    ensures var all := AllSlots(read, a, AllSlots(read, a, Slots(read, a, block)));
            m < |all| && all[m] == GetTind(read, a, m, block)
  {
    Positive(a);
    Cube(a);
    var i, n := Digits(m, a * a, a);
    var j, k := Digits(n, a, a);
    var dinds := Slots(read, a, block);
    AllSlotsAt(read, a, dinds, i, j);
    AllSlotsAt(read, a, AllSlots(read, a, dinds), i * a + j, k);
    Regroup(i, j, k, a);
    assert GetTind(read, a, m, block) == read(read(read(block, i), j), k);
  }

  lemma Regroup(i: nat, j: nat, k: nat, a: nat)
    ensures (i * a + j) * a + k == i * (a * a) + (j * a + k)
  {
  }

  /** A logical block is the pointer at its place in the order of the file, for all blocks that the index blocks can reach. */
  lemma PointerOf(read: (nat, nat) -> nat, data: seq<nat>, a: nat, l: nat)
    requires a > 0 && |data| == 15
    ensures |FilePointers(read, data, a)| == 12 + a + a * a + a * a * a
    ensures l < 12 + a + a * a + a * a * a ==> GetPblock(read, data, a, l) == FilePointers(read, data, a)[l]
  {
    AllSlotsLength(read, a, Slots(read, a, data[13]));
    AllSlotsLength(read, a, Slots(read, a, data[14]));
    AllSlotsLength(read, a, AllSlots(read, a, Slots(read, a, data[14])));
    if MaxInd(a) <= l < MaxDind(a) {
      DindAt(read, a, l - MaxInd(a), data[13]);
    } else if MaxDind(a) <= l < MaxTind(a) {
      TindAt(read, a, l - MaxDind(a), data[14]);
    }
  }
}
