/** The allocation bitmaps of the image builder: bit `n % 8` of byte `n / 8` says that number `n` is taken. */
module Bitmap {
  import opened Prelude

  const PER_BLOCK: nat := 8192      // bits in one bitmap block of 1024 bytes

  predicate Bit(b: bv8, i: nat)
    requires i < 8
  {
    (b >> i) & 1 == 1
  }

  /** What the scan tests: the byte is a signed `char`, so bit 8 of its promotion is its sign. */
  predicate Tests(b: bv8, i: nat)
    requires i <= 8
  {
    Bit(b, if i < 8 then i else 7)
  }

  predicate Marked(bytes: seq<bv8>, n: nat)
  {
    n / 8 < |bytes| && Bit(bytes[n / 8], n % 8)
  }

  lemma SetBit(b: bv8, i: nat, j: nat)
    requires i < 8 && j < 8
    ensures Bit(b | (1 << i), j) <==> i == j || Bit(b, j)
  {
  }

  lemma NothingMarked(bytes: seq<bv8>)
    requires forall k | 0 <= k < |bytes| :: bytes[k] == 0
    ensures forall m: nat :: !Marked(bytes, m)
  {
    forall i: nat | i < 8 ensures !Bit(0, i) {
    }
  }

  lemma MarkOne(bytes: seq<bv8>, k: nat, i: nat, m: nat)
    requires k < |bytes| && i < 8
    ensures Marked(bytes[k := bytes[k] | (1 << i)], m) <==> m == 8 * k + i || Marked(bytes, m)
  {
    SetBit(bytes[k], i, m % 8);
  }

  /** The inner loop: the first clear bit of a byte. Bit 8 is tested but never chosen. */
  method FirstClearBit(b: bv8) returns (r: Option<nat>)
    ensures r.Some? ==> r.value < 8 && !Bit(b, r.value) && forall i | 0 <= i < r.value :: Bit(b, i)
    ensures r.None? ==> forall i | 0 <= i < 8 :: Bit(b, i)
  {
    for i := 0 to 9
      invariant forall j | 0 <= j < i && j < 8 :: Bit(b, j)
    {
      if !Tests(b, i) {
        return Some(i);
      }
    }
    r := None;
  }

  /** The scan both allocators share: the position of the first clear bit as block, byte and bit. */
  method Scan(bytes: seq<bv8>, blocks: nat) returns (found: bool, block: nat, byte: nat, bit: nat)
    requires |bytes| == 1024 * blocks
    ensures found ==>
      byte < 1024 && bit < 8 && 1024 * block + byte < |bytes| && !Marked(bytes, 8 * (1024 * block + byte) + bit)
    ensures found ==> forall m: nat | m < 8 * (1024 * block + byte) + bit :: Marked(bytes, m)
    ensures !found ==> forall m: nat | m < 8 * |bytes| :: Marked(bytes, m)
  {
    found, block, byte, bit := false, 0, 0, 0;
    while block < blocks
      invariant byte < 1024 && block <= blocks && (block == blocks ==> byte == 0)
      invariant forall m: nat | m < 8 * (1024 * block + byte) :: Marked(bytes, m)
      decreases 1024 * (blocks - block) - byte
    {
      var at := 1024 * block + byte;
      var r := FirstClearBit(bytes[at]);
      if r.Some? {
        bit, found := r.value, true;
        return;
      }
      byte := byte + 1;
      if byte == 1024 {
        block, byte := block + 1, 0;
      }
    }
  }

  /** `diosfs_get_free_block_and_mark_bitmap`; nothing found is the exit. */
  method MarkBlock(bytes: seq<bv8>, blocks: nat) returns (r: Option<nat>, marked: seq<bv8>)
    requires |bytes| == 1024 * blocks
    ensures |marked| == |bytes|
    ensures r.Some? ==>
      r.value < 8 * |bytes| && !Marked(bytes, r.value) && forall m: nat | m < r.value :: Marked(bytes, m)
    ensures r.Some? ==> forall m: nat :: Marked(marked, m) <==> m == r.value || Marked(bytes, m)
    ensures r.None? ==> marked == bytes && forall m: nat | m < 8 * |bytes| :: Marked(bytes, m)
  {
    var found, block, byte, bit := Scan(bytes, blocks);
    if !found {
      return None, bytes;
    }
    var at := 1024 * block + byte;
    marked := bytes[at := bytes[at] | (1 << bit)];
    forall m: nat ensures Marked(marked, m) <==> m == 8 * at + bit || Marked(bytes, m) {
      MarkOne(bytes, at, bit, m);
    }
    r := Some(block * 1024 * 8 + byte * 8 + bit);
  }

  /** `diosfs_get_free_inode_and_mark_bitmap`: the number is right, but the mark always goes to the first bitmap
      block. So the number becomes marked if and only if it is below 8192, and from then on nothing changes. */
  method MarkInode(bytes: seq<bv8>, blocks: nat) returns (r: Option<nat>, marked: seq<bv8>)
    requires |bytes| == 1024 * blocks
    ensures |marked| == |bytes|
    ensures r.Some? ==>
      r.value < 8 * |bytes| && !Marked(bytes, r.value) && forall m: nat | m < r.value :: Marked(bytes, m)
    ensures r.Some? ==> (Marked(marked, r.value) <==> r.value < PER_BLOCK)
    ensures r.Some? ==> forall m: nat | m != r.value :: Marked(marked, m) <==> Marked(bytes, m)
    ensures r.None? ==> marked == bytes && forall m: nat | m < 8 * |bytes| :: Marked(bytes, m)
  {
    var found, block, byte, bit := Scan(bytes, blocks);
    if !found {
      return None, bytes;
    }
    marked := bytes[byte := bytes[byte] | (1 << bit)];
    forall m: nat ensures Marked(marked, m) <==> m == 8 * byte + bit || Marked(bytes, m) {
      MarkOne(bytes, byte, bit, m);
    }
    r := Some(block * 1024 * 8 + byte * 8 + bit);
  }

  /** Once the first bitmap block is full, two inodes in a row get the same number. */
  method InodeTwice(bytes: seq<bv8>, blocks: nat) returns (first: Option<nat>, second: Option<nat>)
    requires |bytes| == 1024 * blocks
    ensures first.Some? ==> (second == first <==> first.value >= PER_BLOCK)
  {
    var marked;
    first, marked := MarkInode(bytes, blocks);
    second, marked := MarkInode(marked, blocks);
  }
}
