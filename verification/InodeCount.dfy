/** How the block count of an inode is stored: in units of 512 bytes or of blocks, in 32 or 48 bits. */
module InodeCount {
  import opened Arithmetic

  /* The volume has the huge-file feature; the inode has the huge-file flag; the block size in 512-byte units. */
  datatype Format = Format(hugeFeature: bool, hugeFlag: bool, unitsPerBlock: nat)

  const LOW_LIMIT: nat := 0x1_0000_0000
  const FULL_LIMIT: nat := 0x1_0000_0000_0000

  /** The unit that a block counts for in the stored field. */
  function Unit(f: Format): nat {
    if f.hugeFeature && f.hugeFlag then 1 else f.unitsPerBlock
  }

  function Limit(f: Format): nat {
    if f.hugeFeature then FULL_LIMIT else LOW_LIMIT
  }

  /** The stored field (low 32 bits, high 16 bits) after setting the count; `high` is the old high part. */
  function SetBlocks(f: Format, blocks: nat, high: nat): (nat, nat) {
    var raw := blocks * Unit(f);
    (raw % LOW_LIMIT, if f.hugeFeature then raw / LOW_LIMIT % 0x1_0000 else high)
  }

  function GetBlocks(f: Format, low: nat, high: nat): nat
    requires f.unitsPerBlock > 0
  {
    if f.hugeFeature then (high * LOW_LIMIT + low) / Unit(f) else low / Unit(f)
  }

  lemma Divided(b: nat, u: nat, limit: nat)
    requires u > 0 && limit > 0
    ensures b * u % limit / u == b <==> b * u < limit
  {
    Remainder(b * u, limit);
    QuotientIs(b, u, b * u % limit);
  }

  lemma Remainder(x: nat, limit: nat)
    requires limit > 0
    ensures if x < limit then x % limit == x else x % limit < x
  {
  }

  lemma QuotientIs(b: nat, u: nat, r: nat)
    requires u > 0 && r <= b * u
    ensures r / u == b <==> r == b * u
  {
    if r == b * u {
      DivMod(u, b, 0);
    } else {
      Quotient(r, u, b);
    }
  }

  lemma Halves(x: nat)
    ensures x / LOW_LIMIT % 0x1_0000 * LOW_LIMIT + x % LOW_LIMIT == x % FULL_LIMIT
  {
  }

  /** The count read back is the count set exactly when it fits the field. */
  lemma CountRoundTrip(f: Format, blocks: nat, high: nat)
    requires f.unitsPerBlock > 0
    ensures var s := SetBlocks(f, blocks, high);
            GetBlocks(f, s.0, s.1) == blocks <==> blocks * Unit(f) < Limit(f)
  {
    Divided(blocks, Unit(f), Limit(f));
    Halves(blocks * Unit(f));
  }

  /**
   What is stored: the number of blocks if the volume has the feature and the inode the flag, else the
   number of 512-byte units; cut to 48 bits with the feature, else to 32 bits, the high part left alone.
   */
  lemma StoredUnits(f: Format, blocks: nat, high: nat)
    ensures var s := SetBlocks(f, blocks, high);
            if f.hugeFeature then
              && s.0 < 0x1_0000_0000 && s.1 < 0x1_0000
              && s.1 * 0x1_0000_0000 + s.0 == (if f.hugeFlag then blocks else blocks * f.unitsPerBlock) % 0x1_0000_0000_0000
            else s == (blocks * f.unitsPerBlock % 0x1_0000_0000, high)
  {
    Halves(blocks * Unit(f));
  }

  /** Without the huge-file feature, 2^29 blocks of 4 KiB are stored as 2^32 units, which read back as none. */
  lemma CountExample(huge: bool, high: nat)
    ensures var f, blocks := Format(false, huge, 8), 0x2000_0000;
            var s := SetBlocks(f, blocks, high); GetBlocks(f, s.0, s.1) == 0
  {
    assert 0x2000_0000 * 8 == LOW_LIMIT;
  }
}
