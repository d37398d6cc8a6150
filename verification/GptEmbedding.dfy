/** Where stage 2 goes on a GPT disk without a partition of its own: its halves are put at the ends of the
    32-block partition arrays, whose entry count shrinks to make room (section 5.3 of the UEFI Specification). */
module GptEmbedding {

  const TWO_TO_64: int := 0x1_0000_0000_0000_0000

  predicate BlockSize(lb: nat)
  {
    lb == 512 || lb == 4096
  }

  function Sectors(size: nat): nat
  {
    (size + 511) / 512
  }

  /** The halves in sectors; each is kept in a 16-bit number of bytes. */
  function HalfA(size: nat): nat
  {
    (Sectors(size) / 2 * 512 + (if Sectors(size) % 2 == 1 then 512 else 0)) % 65536
  }

  function HalfB(size: nat): nat
  {
    Sectors(size) / 2 * 512 % 65536
  }

  /** The last place in a 32-block array at `lba` for `size` bytes, in 64-bit arithmetic. */
  function Location(lba: nat, lb: nat, size: nat): nat
    requires BlockSize(lb)
  {
    var end := ((lba + 32) * lb - size) % TWO_TO_64;
    end - end % lb
  }

  function Signed(x: int): int
  {
    var w := x % TWO_TO_64;
    if w < TWO_TO_64 / 2 then w else w - TWO_TO_64
  }

  /** The blocks of the array that remain for entries. */
  function BlocksLeft(lba: nat, lb: nat, size: nat): int
    requires BlockSize(lb)
  {
    Location(lba, lb, size) / lb - lba
  }

  /** The entries that remain; the original computes them in unsigned words and compares them as signed. */
  function EntryCount(lba: nat, lb: nat, size: nat, entry: nat): int
    requires BlockSize(lb) && entry > 0
  {
    Signed(BlocksLeft(lba, lb, size) * (lb / entry))
  }

  predicate Accepted(lba: nat, lb: nat, size: nat, entry: nat, maxUsed: int)
    requires BlockSize(lb) && entry > 0
  {
    EntryCount(lba, lb, HalfA(size), entry) > maxUsed
  }

  /** The scan for the last used entry. */
  method LastUsed(used: seq<bool>) returns (r: int)
    ensures -1 <= r < |used| && (r >= 0 ==> used[r])
    ensures forall i | r < i < |used| :: !used[i]
  {
    r := -1;
    for i := 0 to |used|
      invariant -1 <= r < i && (r >= 0 ==> used[r])
      invariant forall j | r < j < i :: !used[j]
    {
      if used[i] {
        if i > r {
          r := i;
        }
      }
    }
  }

  // ------------------------------------------------------------------ one array

  lemma RoundedDown(end: nat, lb: nat)
    requires BlockSize(lb)
    ensures 0 <= end - end % lb <= end < end - end % lb + lb && (end - end % lb) % lb == 0
  {
    if lb == 512 {
      var q := end / 512;
      assert end - end % 512 == 512 * q;
    } else {
      var q := end / 4096;
      assert end - end % 4096 == 4096 * q;
    }
  }

  lemma LocationIs(lba: nat, lb: nat, size: nat)
    requires BlockSize(lb) && (lba + 32) * lb < TWO_TO_64 && size <= (lba + 32) * lb
    ensures Location(lba, lb, size) % lb == 0
    ensures size <= (lba + 32) * lb - Location(lba, lb, size) < size + lb
  {
    var end := (lba + 32) * lb - size;
    assert end % TWO_TO_64 == end;
    RoundedDown(end, lb);
  }

  lemma WholeEntries(blocks: nat, lb: nat, entry: nat)
    requires entry > 0
    ensures 0 <= blocks * (lb / entry) * entry <= blocks * lb
  {
    var per := lb / entry;
    assert per * entry <= lb;
    calc {
      blocks * per * entry;
      blocks * (per * entry);
    <= { Scale(blocks, per * entry, lb); }
      blocks * lb;
    }
  }

  lemma Scale(k: nat, a: int, b: int)
    requires 0 <= a <= b
    ensures 0 <= k * a <= k * b
  {
  }

  lemma BlocksLeftIs(lba: nat, lb: nat, size: nat)
    requires BlockSize(lb) && (lba + 32) * lb < TWO_TO_64 && size <= 32 * lb
    ensures 0 <= BlocksLeft(lba, lb, size) <= 32
    ensures Location(lba, lb, size) == lba * lb + BlocksLeft(lba, lb, size) * lb
    ensures size <= (32 - BlocksLeft(lba, lb, size)) * lb < size + lb
  {
    LocationIs(lba, lb, size);
    var loc := Location(lba, lb, size);
    if lb == 512 { assert loc / 512 * 512 == loc; } else { assert loc / 4096 * 4096 == loc; }
  }

  lemma SmallCount(blocks: nat, per: nat, lb: nat)
    requires blocks <= 32 && per <= lb <= 4096
    ensures 0 <= blocks * per <= 32 * lb && Signed(blocks * per) == blocks * per
  {
    Scale(per, blocks, 32);
    Scale(32, per, lb);
    var count := per * blocks;
    assert 0 <= count <= 32 * 4096;
  }

  /** The entries that remain end before the half begins. */
  lemma EntriesBeforeHalf(lba: nat, lb: nat, size: nat, entry: nat)
    requires BlockSize(lb) && (lba + 32) * lb < TWO_TO_64 && size <= 32 * lb && entry > 0
    ensures 0 <= EntryCount(lba, lb, size, entry) <= 32 * lb
    ensures lba * lb + EntryCount(lba, lb, size, entry) * entry <= Location(lba, lb, size)
    ensures Location(lba, lb, size) + size <= (lba + 32) * lb
  {
    BlocksLeftIs(lba, lb, size);
    var blocks := BlocksLeft(lba, lb, size);
    SmallCount(blocks, lb / entry, lb);
    WholeEntries(blocks, lb, entry);
  }

  // ------------------------------------------------------------------ both halves

  /** What is written of stage 2 at the second place. */
  function RestLength(size: nat): int
  {
    size - HalfA(size)
  }

  /** The halves hold all of stage 2, the second within its sectors, exactly if stage 2 has at least one sector and
      the 16-bit sizes do not wrap around. */
  lemma SplitExact(size: nat)
    ensures 0 <= RestLength(size) <= HalfB(size) <==> size == 0 || (512 <= size && Sectors(size) <= 254)
    ensures Sectors(size) <= 254 ==> HalfB(size) <= HalfA(size) <= HalfB(size) + 512
  {
    var n := Sectors(size);
    var a, b := n / 2 * 512 + (if n % 2 == 1 then 512 else 0), n / 2 * 512;
    assert a + b == 512 * n && 512 * n - 512 < size <= 512 * n;
    if n <= 254 {
      assert a % 65536 == a && b % 65536 == b;
    } else {
      assert a >= 65536;
      assert a % 65536 <= a - 65536;
      assert b % 65536 <= b;
    }
  }

  lemma SmallerCount(lba: nat, other: nat, lb: nat, size: nat, less: nat, entry: nat)
    requires BlockSize(lb) && (lba + 32) * lb < TWO_TO_64 && (other + 32) * lb < TWO_TO_64 && less <= size <= 32 * lb &&
      entry > 0
    ensures 0 <= EntryCount(lba, lb, size, entry) <= EntryCount(other, lb, less, entry)
  {
    SmallerHalf(lba, other, lb, size, less);
    BlocksLeftIs(lba, lb, size);
    BlocksLeftIs(other, lb, less);
    var per := lb / entry;
    SmallCount(BlocksLeft(lba, lb, size), per, lb);
    SmallCount(BlocksLeft(other, lb, less), per, lb);
    Scale(per, BlocksLeft(lba, lb, size), BlocksLeft(other, lb, less));
  }

  /** The first `count` entries of an array and then a half of `size` bytes fit into the 32 blocks in this order. */
  ghost predicate Separate(lba: nat, lb: nat, count: int, entry: nat, size: nat)
    requires BlockSize(lb)
  {
    && lba * lb + count * entry <= Location(lba, lb, size)
    && Location(lba, lb, size) + size <= (lba + 32) * lb
  }

  lemma OwnCount(lba: nat, lb: nat, size: nat, entry: nat)
    requires BlockSize(lb) && (lba + 32) * lb < TWO_TO_64 && size <= 32 * lb && entry > 0
    ensures Separate(lba, lb, EntryCount(lba, lb, size, entry), entry, size)
  {
    EntriesBeforeHalf(lba, lb, size, entry);
  }

  lemma FewerEntries(lba: nat, lb: nat, count: int, fewer: int, entry: nat, size: nat)
    requires BlockSize(lb) && Separate(lba, lb, count, entry, size) && 0 <= fewer <= count
    ensures Separate(lba, lb, fewer, entry, size)
  {
    Scale(entry, fewer, count);
  }

  /** A smaller half leaves at least as many blocks. */
  lemma SmallerHalf(lba: nat, other: nat, lb: nat, size: nat, less: nat)
    requires BlockSize(lb) && (lba + 32) * lb < TWO_TO_64 && (other + 32) * lb < TWO_TO_64 && less <= size <= 32 * lb
    ensures BlocksLeft(lba, lb, size) <= BlocksLeft(other, lb, less)
  {
    BlocksLeftIs(lba, lb, size);
    BlocksLeftIs(other, lb, less);
  }

  /** If the check passes and half A fits into its array, both halves lie behind the entries that remain and inside
      the 32 blocks of their arrays, and every used entry remains. */
  lemma Embedded(lbaA: nat, lbaB: nat, lb: nat, size: nat, entry: nat, maxUsed: int)
    requires BlockSize(lb) && (lbaA + 32) * lb < TWO_TO_64 && (lbaB + 32) * lb < TWO_TO_64 && entry > 0 && maxUsed >= -1
    requires Accepted(lbaA, lb, size, entry, maxUsed) && HalfA(size) <= 32 * lb
    requires 512 <= size && Sectors(size) <= 254
    ensures maxUsed < EntryCount(lbaA, lb, HalfA(size), entry)
    ensures Separate(lbaA, lb, EntryCount(lbaA, lb, HalfA(size), entry), entry, HalfA(size))
    ensures Separate(lbaB, lb, EntryCount(lbaA, lb, HalfA(size), entry), entry, HalfB(size))
    ensures 0 <= RestLength(size) <= HalfB(size)
  {
    SplitExact(size);
    var a, b := HalfA(size), HalfB(size);
    OwnCount(lbaA, lb, a, entry);
    OwnCount(lbaB, lb, b, entry);
    SmallerCount(lbaA, lbaB, lb, a, b, entry);
    FewerEntries(lbaB, lb, EntryCount(lbaB, lb, b, entry), EntryCount(lbaA, lb, a, entry), entry, b);
  }

  /** The second half stays inside its array exactly if the 16-bit sizes do not wrap around. */
  lemma RestInsideExactly(lba: nat, lb: nat, size: nat)
    requires BlockSize(lb) && (lba + 32) * lb < TWO_TO_64 && HalfB(size) <= (lba + 32) * lb && size >= 512
    ensures Location(lba, lb, HalfB(size)) + RestLength(size) <= (lba + 32) * lb <==> Sectors(size) <= 254
  {
    LocationIs(lba, lb, HalfB(size));
    SplitExact(size);
    if Sectors(size) > 254 {
      var n := Sectors(size);
      assert HalfA(size) <= n / 2 * 512 + 512 - 65536 && HalfB(size) <= n / 2 * 512;
    }
  }

  lemma NegativeBlocks(lba: nat, size: nat)
    requires (lba + 32) * 512 < TWO_TO_64 && 32 * 512 < size <= (lba + 32) * 512 && size < 65536
    ensures -128 <= BlocksLeft(lba, 512, size) < 0
  {
    LocationIs(lba, 512, size);
  }

  lemma NegativeCount(blocks: int, per: nat)
    requires -128 <= blocks < 0 && 1 <= per <= 512
    ensures Signed(blocks * per) < 0
  {
    Scale(per, -blocks, 128);
    Scale(-blocks, 1, per);
    var count := blocks * per;
    assert -65536 <= count < 0;
  }

  /** A passed check implies that half A fits, unless the place of half A wraps around below address 0. */
  lemma AcceptedFits(lba: nat, lb: nat, size: nat, entry: nat, maxUsed: int)
    requires BlockSize(lb) && (lba + 32) * lb < TWO_TO_64 && 0 < entry <= lb && maxUsed >= -1
    requires Accepted(lba, lb, size, entry, maxUsed)
    ensures HalfA(size) <= 32 * lb <==> HalfA(size) <= (lba + 32) * lb
  {
    if 32 * lb < HalfA(size) <= (lba + 32) * lb {
      NegativeBlocks(lba, HalfA(size));
      NegativeCount(BlocksLeft(lba, 512, HalfA(size)), 512 / entry);
    } else if HalfA(size) <= 32 * lb {
      Scale(lb, 32, lba + 32);
    }
  }

  /** With the array at its usual place, block 2, and 35 sectors in half A, the place wraps around and the check
      still passes. */
  lemma WrappedIsAccepted(maxUsed: int)
    requires -1 <= maxUsed < 128
    ensures Accepted(2, 512, 70 * 512, 128, maxUsed) && HalfA(70 * 512) > 34 * 512
    ensures Location(2, 512, HalfA(70 * 512)) == TWO_TO_64 - 512
  {
    assert Location(2, 512, 17920) == TWO_TO_64 - 512;
    assert BlocksLeft(2, 512, 17920) == 0x80_0000_0000_0000 - 3;
  }

  // ------------------------------------------------------------------ the shipped image

  const IMAGE: nat := 21416       // bytes of the boot loader image, with its first sector

  /** With 128-byte entries the shipped image leaves 44 entries on 512-byte blocks and 928 on 4096-byte blocks. */
  lemma EntriesLeft(lba: nat)
    requires (lba + 32) * 4096 < TWO_TO_64
    ensures EntryCount(lba, 512, HalfA(IMAGE - 512), 128) == 44
    ensures EntryCount(lba, 4096, HalfA(IMAGE - 512), 128) == 928
  {
    assert HalfA(IMAGE - 512) == 10752;
    BlocksLeftIs(lba, 512, 10752);
    BlocksLeftIs(lba, 4096, 10752);
    assert BlocksLeft(lba, 512, 10752) == 11 && BlocksLeft(lba, 4096, 10752) == 29;
  }
}
