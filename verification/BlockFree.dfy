/** Freeing the blocks of an inode: the traversal of `free_blocks_from_inode` from block 0 on. */
module BlockFree {
  import opened Prelude
  import opened BlockMap
  import opened BlockAllocation
  import opened BlockReach

  /** Bits in one block of the bitmap. Clearing a bit indexes the bitmap block it has read by the bit's
      place in the whole bitmap, so the bit is cleared only if it lies in the first block. */
  const BITS_PER_BLOCK: nat := 8192

  /** What the traversal has to free, in order, and what the disk, the bitmap and the list of blocks given back
      were at its start. */
  datatype Target = Target(blocks: seq<int>, disk: Disk, used: seq<bool>, freed: seq<int>)

  /** The list of blocks given back, the disk and the bitmap after the first `k` blocks have been freed, one after
      the other. */
  ghost function TraceAfter(t: Target, k: nat): seq<int>
    requires k <= |t.blocks|
  {
    if k == 0 then t.freed else TraceAfter(t, k - 1) + [t.blocks[k - 1]]
  }

  lemma {:induction false} TraceIs(t: Target, k: nat)
    requires k <= |t.blocks|
    ensures TraceAfter(t, k) == t.freed + t.blocks[..k]
  {
    if k > 0 {
      TraceIs(t, k - 1);
      assert t.blocks[..k] == t.blocks[..k - 1] + [t.blocks[k - 1]];
    }
  }

  ghost function DiskAfter(t: Target, k: nat): (disk: Disk)
    requires OnDisk(t) && k <= |t.blocks|
    ensures |disk| == |t.disk|
  {
    if k == 0 then t.disk else DiskAfter(t, k - 1)[t.blocks[k - 1] := Zeros()]
  }

  ghost function UsedAfter(t: Target, k: nat): (used: seq<bool>)
    requires OnDisk(t) && k <= |t.blocks|
    ensures |used| == |t.used|
  {
    if k == 0 then t.used
    else
      var used, b := UsedAfter(t, k - 1), t.blocks[k - 1];
      if b < BITS_PER_BLOCK then used[b := false] else used
  }

  ghost predicate OnDisk(t: Target)
  {
    |t.used| == |t.disk| && forall i | 0 <= i < |t.blocks| :: 0 <= t.blocks[i] < |t.disk|
  }

  ghost predicate Freed(t: Target, k: nat, disk: Disk, used: seq<bool>, freed: seq<int>)
    requires OnDisk(t)
  {
    k <= |t.blocks| && disk == DiskAfter(t, k) && used == UsedAfter(t, k) && freed == TraceAfter(t, k)
  }

  /** Freed blocks hold zeros, their reachable bits are clear, and nothing else has changed. */
  lemma {:induction false} FreedAt(t: Target, k: nat, x: nat)
    requires OnDisk(t) && k <= |t.blocks| && x < |t.disk|
    ensures DiskAfter(t, k)[x] == if x in t.blocks[..k] then Zeros() else t.disk[x]
    ensures UsedAfter(t, k)[x] == (t.used[x] && !(x in t.blocks[..k] && x < BITS_PER_BLOCK))
  {
    if k > 0 {
      FreedAt(t, k - 1, x);
      assert t.blocks[..k] == t.blocks[..k - 1] + [t.blocks[k - 1]];
    }
  }

  const BITS_PER_PAGE: nat := 32768

  /** `diosfs_clear_bitmap`. The bitmap block that holds bit `b` is read to the start of a page, the bit is cleared at
      the place that it has in the whole bitmap, and the block is written back. So the bit is cleared only if it lies
      in the first block, and from bit 32768 on the access lies outside the page. */
  method ClearBit(used: seq<bool>, b: nat) returns (now: seq<bool>, inside: bool)
    requires b < |used|
    ensures inside <==> b < BITS_PER_PAGE
    ensures now == if b < BITS_PER_BLOCK then used[b := false] else used
  {
    var low := b / BITS_PER_BLOCK * BITS_PER_BLOCK;
    var high := Min(low + BITS_PER_BLOCK, |used|);
    var page := used[low..high] + seq(BITS_PER_PAGE - (high - low), _ => false);
    inside := b < |page|;
    if inside {
      page := page[b := false];
    }
    now := used[..low] + page[..high - low] + used[high..];
  }

  method FreeBlock(fs: FileSystem, b: int, ghost t: Target, ghost k: nat)
    requires OnDisk(t) && Freed(t, k, fs.disk, fs.used, fs.freed)
    requires k < |t.blocks| && b == t.blocks[k]
    modifies fs`disk, fs`used, fs`freed
    ensures Freed(t, k + 1, fs.disk, fs.used, fs.freed)
  {
    fs.disk := fs.disk[b := Zeros()];
    var inside;
    fs.used, inside := ClearBit(fs.used, b);
    fs.freed := fs.freed + [b];
  }

  /** The next pointers of a traversal: `pointers[i]` is to be freed at step `k + i`. */
  ghost predicate Next(t: Target, k: nat, pointers: seq<int>, num: nat)
  {
    k + num == |t.blocks| && forall i {:trigger pointers[i]} | 0 <= i < |pointers| && i < num ::
      pointers[i] == t.blocks[k + i]
  }

  /** The innermost loop of every level: frees pointers until they or the count run out. */
  method FreePointers(fs: FileSystem, pointers: seq<int>, num: nat, ghost t: Target, ghost k: nat)
    returns (left: nat, ghost next: nat)
    requires OnDisk(t) && Freed(t, k, fs.disk, fs.used, fs.freed) && Next(t, k, pointers, num) && num > 0
    modifies fs`disk, fs`used, fs`freed
    ensures left == num - Min(num, |pointers|) && next == k + Min(num, |pointers|)
    ensures Freed(t, next, fs.disk, fs.used, fs.freed)
  {
    left, next := num, k;
    for i := 0 to |pointers|
      invariant left == num - i > 0 && next == k + i && Freed(t, next, fs.disk, fs.used, fs.freed)
    {
      FreeBlock(fs, pointers[i], t, next);
      left, next := left - 1, next + 1;
      if left == 0 {
        return;
      }
    }
  }

  /** The blocks of the file in logical order. */
  ghost function Blocks(disk: Disk, p: Pointers, num: nat): (s: seq<int>)
    requires num <= MAX_LOGICAL && |p.direct| == NUM_BLOCKS_DIRECT
    ensures |s| == num && forall b | 0 <= b < num :: s[b] == Lookup(disk, p, b)
  {
    seq(num, b requires 0 <= b < num => Lookup(disk, p, b))
  }

  /** The lookup of `b` reads only blocks that are on the disk and are not to be freed. */
  ghost predicate PathSafe(t: Target, p: Pointers, b: nat)
    requires b < MAX_LOGICAL
  {
    forall m | m in LookupPath(t.disk, p, b) :: 0 <= m < |t.disk| && m !in t.blocks
  }

  /** A traversal target whose lookups read no block that is to be freed. */
  ghost predicate Sound(t: Target, p: Pointers)
  {
    && |p.direct| == NUM_BLOCKS_DIRECT && |t.blocks| <= MAX_LOGICAL
    && OnDisk(t) && t.blocks == Blocks(t.disk, p, |t.blocks|)
    && (forall x | 0 <= x < |t.disk| :: |t.disk[x]| == N)
    && forall b | 0 <= b < |t.blocks| :: PathSafe(t, p, b)
  }

  /** A pointer block on a lookup path still holds what it held. */
  lemma PathIntact(t: Target, p: Pointers, k: nat, disk: Disk, used: seq<bool>, freed: seq<int>, b: nat, m: int)
    requires Sound(t, p) && Freed(t, k, disk, used, freed) && b < |t.blocks| && m in LookupPath(t.disk, p, b)
    ensures 0 <= m < |disk| && disk[m] == t.disk[m] && |disk[m]| == N
  {
    assert PathSafe(t, p, b);
    assert m !in t.blocks[..k];
    FreedAt(t, k, m);
  }

  /** The leaves below a depth-2 block are what is to be freed from step `k` on. */
  ghost predicate Next2(t: Target, p: Pointers, k: nat, pointers: seq<int>, num: nat)
    requires |p.direct| == NUM_BLOCKS_DIRECT
  {
    && k + num == |t.blocks| <= MAX_LOGICAL && |pointers| == N
    && forall j {:trigger pointers[j]} | 0 <= j < N && j * N < num ::
         && pointers[j] in LookupPath(t.disk, p, k + j * N)
         && 0 <= pointers[j] < |t.disk|
         && Next(t, k + j * N, t.disk[pointers[j]], num - j * N)
  }

  ghost predicate Next3(t: Target, p: Pointers, k: nat, pointers: seq<int>, num: nat)
    requires |p.direct| == NUM_BLOCKS_DIRECT
  {
    && k + num == |t.blocks| <= MAX_LOGICAL && |pointers| == N
    && forall j {:trigger pointers[j]} | 0 <= j < N && j * N2 < num ::
         && pointers[j] in LookupPath(t.disk, p, k + j * N2)
         && 0 <= pointers[j] < |t.disk|
         && Next2(t, p, k + j * N2, t.disk[pointers[j]], num - j * N2)
  }

  lemma Next2At(t: Target, p: Pointers, k: nat, pointers: seq<int>, num: nat, j: nat, next: nat, left: nat)
    requires |p.direct| == NUM_BLOCKS_DIRECT && Next2(t, p, k, pointers, num) && j < N
    requires left == num - j * N > 0 && next == k + j * N
    ensures next < |t.blocks| <= MAX_LOGICAL && pointers[j] in LookupPath(t.disk, p, next)
    ensures 0 <= pointers[j] < |t.disk| && Next(t, next, t.disk[pointers[j]], left)
  {
  }

  lemma Next3At(t: Target, p: Pointers, k: nat, pointers: seq<int>, num: nat, j: nat, next: nat, left: nat)
    requires |p.direct| == NUM_BLOCKS_DIRECT && Next3(t, p, k, pointers, num) && j < N
    requires left == num - j * N2 > 0 && next == k + j * N2
    ensures next < |t.blocks| <= MAX_LOGICAL && pointers[j] in LookupPath(t.disk, p, next) &&
      0 <= pointers[j] < |t.disk|
    ensures Next2(t, p, next, t.disk[pointers[j]], left)
  {
  }

  /** The two inner loops of the double and the triple level. */
  method FreeDouble(fs: FileSystem, pointers: seq<int>, num: nat, ghost p: Pointers, ghost t: Target, ghost k: nat)
    returns (left: nat, ghost next: nat)
    requires Sound(t, p) && Freed(t, k, fs.disk, fs.used, fs.freed) && Next2(t, p, k, pointers, num) && num > 0
    modifies fs`disk, fs`used, fs`freed
    ensures left == num - Min(num, N2) && next == k + Min(num, N2)
    ensures Freed(t, next, fs.disk, fs.used, fs.freed)
  {
    left, next := num, k;
    for j := 0 to N
      invariant left == num - j * N > 0 && next == k + j * N && Freed(t, next, fs.disk, fs.used, fs.freed)
    {
      Next2At(t, p, k, pointers, num, j, next, left);
      left, next := FreeBelow(fs, pointers[j], left, p, t, next);
      if left == 0 {
        return;
      }
    }
  }

  /** Frees what the pointer block `m` lists. */
  method FreeBelow(fs: FileSystem, m: int, num: nat, ghost p: Pointers, ghost t: Target, ghost k: nat)
    returns (left: nat, ghost next: nat)
    requires Sound(t, p) && Freed(t, k, fs.disk, fs.used, fs.freed) && num > 0 && k + num == |t.blocks|
    requires m in LookupPath(t.disk, p, k) && 0 <= m < |t.disk| && Next(t, k, t.disk[m], num)
    modifies fs`disk, fs`used, fs`freed
    ensures left == num - Min(num, N) && next == k + Min(num, N)
    ensures Freed(t, next, fs.disk, fs.used, fs.freed)
  {
    PathIntact(t, p, k, fs.disk, fs.used, fs.freed, k, m);
    left, next := FreePointers(fs, fs.disk[m], num, t, k);
  }

  /** The three loops of the triple level. */
  method FreeTriple(fs: FileSystem, pointers: seq<int>, num: nat, ghost p: Pointers, ghost t: Target, ghost k: nat)
    returns (left: nat, ghost next: nat)
    requires Sound(t, p) && Freed(t, k, fs.disk, fs.used, fs.freed) && Next3(t, p, k, pointers, num) && num > 0
    modifies fs`disk, fs`used, fs`freed
    ensures left == num - Min(num, N3) && next == k + Min(num, N3)
    ensures Freed(t, next, fs.disk, fs.used, fs.freed)
  {
    left, next := num, k;
    for j := 0 to N
      invariant left == num - j * N2 > 0 && next == k + j * N2 && Freed(t, next, fs.disk, fs.used, fs.freed)
    {
      Next3At(t, p, k, pointers, num, j, next, left);
      left, next := FreeBelow2(fs, pointers[j], left, p, t, next);
      if left == 0 {
        return;
      }
    }
  }

  method FreeBelow2(fs: FileSystem, m: int, num: nat, ghost p: Pointers, ghost t: Target, ghost k: nat)
    returns (left: nat, ghost next: nat)
    requires Sound(t, p) && Freed(t, k, fs.disk, fs.used, fs.freed) && num > 0 && k + num == |t.blocks|
    requires m in LookupPath(t.disk, p, k) && 0 <= m < |t.disk| && Next2(t, p, k, t.disk[m], num)
    modifies fs`disk, fs`used, fs`freed
    ensures left == num - Min(num, N2) && next == k + Min(num, N2)
    ensures Freed(t, next, fs.disk, fs.used, fs.freed)
  {
    PathIntact(t, p, k, fs.disk, fs.used, fs.freed, k, m);
    left, next := FreeDouble(fs, fs.disk[m], num, p, t, k);
  }

  lemma SingleNext(t: Target, p: Pointers)
    requires Sound(t, p) && |t.blocks| > LEVEL_ONE
    ensures p.single in LookupPath(t.disk, p, LEVEL_ONE) && 0 <= p.single < |t.disk|
    ensures Next(t, LEVEL_ONE, t.disk[p.single], |t.blocks| - LEVEL_ONE)
  {
    assert PathSafe(t, p, LEVEL_ONE) && p.single in LookupPath(t.disk, p, LEVEL_ONE);
    var q := t.disk[p.single];
    forall i {:trigger q[i]} | 0 <= i < |q| && i < |t.blocks| - LEVEL_ONE
      ensures q[i] == t.blocks[LEVEL_ONE + i]
    {
      assert IndicesFor(LEVEL_ONE + i) == Indices(1, 0, 0, 0, i);
    }
  }

  lemma DoubleNext(t: Target, p: Pointers)
    requires Sound(t, p) && |t.blocks| > LEVEL_TWO
    ensures p.double in LookupPath(t.disk, p, LEVEL_TWO) && 0 <= p.double < |t.disk|
    ensures Next2(t, p, LEVEL_TWO, t.disk[p.double], |t.blocks| - LEVEL_TWO)
  {
    assert PathSafe(t, p, LEVEL_TWO) && p.double in LookupPath(t.disk, p, LEVEL_TWO);
    var q, num := t.disk[p.double], |t.blocks| - LEVEL_TWO;
    forall j {:trigger q[j]} | 0 <= j < N && j * N < num
      ensures q[j] in LookupPath(t.disk, p, LEVEL_TWO + j * N) && 0 <= q[j] < |t.disk|
      ensures Next(t, LEVEL_TWO + j * N, t.disk[q[j]], num - j * N)
    {
      assert IndicesFor(LEVEL_TWO + j * N) == Indices(2, 0, 0, j, 0);
      assert PathSafe(t, p, LEVEL_TWO + j * N) && q[j] in LookupPath(t.disk, p, LEVEL_TWO + j * N);
      var r := t.disk[q[j]];
      forall i {:trigger r[i]} | 0 <= i < |r| && i < num - j * N
        ensures r[i] == t.blocks[LEVEL_TWO + j * N + i]
      {
        assert IndicesFor(LEVEL_TWO + j * N + i) == Indices(2, 0, 0, j, i);
      }
    }
  }

  lemma TripleIndices(h: nat, j: nat, i: nat)
    requires h < N && j < N && i < N
    ensures LEVEL_THREE + h * N2 + j * N + i < MAX_LOGICAL
    ensures IndicesFor(LEVEL_THREE + h * N2 + j * N + i) == Indices(3, 0, h, j, i)
  {
    var k := h * N2 + j * N + i;
    QuotientIs(k, N2, h);
    QuotientIs(k, N, h * N + j);
    QuotientIs(k - h * N2, N, j);
  }

  lemma TripleNext(t: Target, p: Pointers)
    requires Sound(t, p) && |t.blocks| > LEVEL_THREE
    ensures p.triple in LookupPath(t.disk, p, LEVEL_THREE) && 0 <= p.triple < |t.disk|
    ensures Next3(t, p, LEVEL_THREE, t.disk[p.triple], |t.blocks| - LEVEL_THREE)
  {
    assert PathSafe(t, p, LEVEL_THREE) && p.triple in LookupPath(t.disk, p, LEVEL_THREE);
    var q, num := t.disk[p.triple], |t.blocks| - LEVEL_THREE;
    forall h {:trigger q[h]} | 0 <= h < N && h * N2 < num
      ensures q[h] in LookupPath(t.disk, p, LEVEL_THREE + h * N2) && 0 <= q[h] < |t.disk|
      ensures Next2(t, p, LEVEL_THREE + h * N2, t.disk[q[h]], num - h * N2)
    {
      TripleIndices(h, 0, 0);
      assert PathSafe(t, p, LEVEL_THREE + h * N2) && q[h] in LookupPath(t.disk, p, LEVEL_THREE + h * N2);
      TripleNext2(t, p, h);
    }
  }

  lemma TripleNext2(t: Target, p: Pointers, h: nat)
    requires Sound(t, p) && h < N && |t.blocks| > LEVEL_THREE + h * N2
    requires 0 <= p.triple < |t.disk| && 0 <= t.disk[p.triple][h] < |t.disk|
    ensures Next2(t, p, LEVEL_THREE + h * N2, t.disk[t.disk[p.triple][h]], |t.blocks| - LEVEL_THREE - h * N2)
  {
    TripleNextAt(t, p, h, LEVEL_THREE + h * N2, t.disk[t.disk[p.triple][h]]);
  }

  lemma TripleNextAt(t: Target, p: Pointers, h: nat, k: nat, q: seq<int>)
    requires Sound(t, p) && h < N && k == LEVEL_THREE + h * N2 < |t.blocks|
    requires 0 <= p.triple < |t.disk| && 0 <= t.disk[p.triple][h] < |t.disk| && q == t.disk[t.disk[p.triple][h]]
    ensures Next2(t, p, k, q, |t.blocks| - k)
  {
    forall j {:trigger q[j]} | 0 <= j < N && j * N < |t.blocks| - k
      ensures q[j] in LookupPath(t.disk, p, k + j * N) && 0 <= q[j] < |t.disk|
      ensures Next(t, k + j * N, t.disk[q[j]], |t.blocks| - k - j * N)
    {
      TripleNext1(t, p, h, j);
    }
  }

  lemma TripleNext1(t: Target, p: Pointers, h: nat, j: nat)
    requires Sound(t, p) && h < N && j < N && |t.blocks| > LEVEL_THREE + h * N2 + j * N
    requires 0 <= p.triple < |t.disk| && 0 <= t.disk[p.triple][h] < |t.disk|
    ensures var q, k := t.disk[t.disk[p.triple][h]], LEVEL_THREE + h * N2 + j * N;
      q[j] in LookupPath(t.disk, p, k) && 0 <= q[j] < |t.disk| && Next(t, k, t.disk[q[j]], |t.blocks| - k)
  {
    var q, k := t.disk[t.disk[p.triple][h]], LEVEL_THREE + h * N2 + j * N;
    TripleIndices(h, j, 0);
    assert PathSafe(t, p, k) && q[j] in LookupPath(t.disk, p, k);
    var r := t.disk[q[j]];
    forall i {:trigger r[i]} | 0 <= i < |r| && i < |t.blocks| - k
      ensures r[i] == t.blocks[k + i]
    {
      TripleIndices(h, j, i);
    }
  }

  /** The levels from the triple one on, from the double one on and from the single one on. */
  method FreeFromThree(fs: FileSystem, p: Pointers, num: nat, ghost t: Target)
    requires Sound(t, p) && num > 0 && |t.blocks| == LEVEL_THREE + num &&
      Freed(t, LEVEL_THREE, fs.disk, fs.used, fs.freed)
    modifies fs`disk, fs`used, fs`freed
    ensures Freed(t, |t.blocks|, fs.disk, fs.used, fs.freed)
  {
    TripleNext(t, p);
    PathIntact(t, p, LEVEL_THREE, fs.disk, fs.used, fs.freed, LEVEL_THREE, p.triple);
    ghost var next;
    var left;
    left, next := FreeTriple(fs, fs.disk[p.triple], num, p, t, LEVEL_THREE);
    assert next == |t.blocks|;
  }

  method FreeFromTwo(fs: FileSystem, p: Pointers, num: nat, ghost t: Target)
    requires Sound(t, p) && num > 0 && |t.blocks| == LEVEL_TWO + num && Freed(t, LEVEL_TWO, fs.disk, fs.used, fs.freed)
    modifies fs`disk, fs`used, fs`freed
    ensures Freed(t, |t.blocks|, fs.disk, fs.used, fs.freed)
  {
    DoubleNext(t, p);
    PathIntact(t, p, LEVEL_TWO, fs.disk, fs.used, fs.freed, LEVEL_TWO, p.double);
    ghost var next;
    var left;
    left, next := FreeDouble(fs, fs.disk[p.double], num, p, t, LEVEL_TWO);
    if left > 0 {
      assert next == LEVEL_THREE;
      FreeFromThree(fs, p, left, t);
    } else {
      assert next == |t.blocks|;
    }
  }

  method FreeFromOne(fs: FileSystem, p: Pointers, num: nat, ghost t: Target)
    requires Sound(t, p) && num > 0 && |t.blocks| == LEVEL_ONE + num && Freed(t, LEVEL_ONE, fs.disk, fs.used, fs.freed)
    modifies fs`disk, fs`used, fs`freed
    ensures Freed(t, |t.blocks|, fs.disk, fs.used, fs.freed)
  {
    SingleNext(t, p);
    PathIntact(t, p, LEVEL_ONE, fs.disk, fs.used, fs.freed, LEVEL_ONE, p.single);
    ghost var next;
    var left;
    left, next := FreePointers(fs, fs.disk[p.single], num, t, LEVEL_ONE);
    if left > 0 {
      assert next == LEVEL_TWO;
      FreeFromTwo(fs, p, left, t);
    } else {
      assert next == |t.blocks|;
    }
  }

  /** The traversal from block 0 on frees exactly the blocks that lookup gives for the first `num` logical
      blocks, once each and in that order. The pointer blocks stay marked, and the block count stays as it was. */
  method FreeBlocksFromInode(fs: FileSystem, inode: Inode, num: nat, ghost t: Target)
    requires num == |t.blocks| && Sound(t, inode.pointers) && Freed(t, 0, fs.disk, fs.used, fs.freed)
    requires inode.blockCount == 0 || num > 0
    modifies fs`disk, fs`used, fs`freed
    ensures inode.blockCount > 0 ==> Freed(t, num, fs.disk, fs.used, fs.freed)
    ensures inode.blockCount > 0 ==> fs.freed == old(fs.freed) + Blocks(old(fs.disk), inode.pointers, num)
    ensures inode.blockCount == 0 ==> Freed(t, 0, fs.disk, fs.used, fs.freed)
  {
    if inode.blockCount == 0 {
      return;
    }
    ghost var next;
    var left;
    left, next := FreePointers(fs, inode.pointers.direct, num, t, 0);
    if left > 0 {
      assert next == LEVEL_ONE;
      FreeFromOne(fs, inode.pointers, left, t);
    } else {
      assert next == num;
    }
    TraceIs(t, num);
    assert t.blocks[..num] == t.blocks;
  }

  lemma MappedSound(disk: Disk, owner: seq<Owner>, used: seq<bool>, freed: seq<int>, number: nat, p: Pointers, num: nat)
    requires Mapped(disk, owner, number, p, num) && |used| == |disk|
    requires forall x | 0 <= x < |disk| :: |disk[x]| == N
    ensures Sound(Target(Blocks(disk, p, num), disk, used, freed), p)
  {
    forall b | 0 <= b < num
      ensures Owns(owner, Lookup(disk, p, b), Data(number, b))
      ensures forall m | m in LookupPath(disk, p, b) :: 0 <= m < |owner| && owner[m].Meta?
    {
      LookupFindsData(disk, owner, number, p, num, b);
    }
    var blocks := Blocks(disk, p, num);
    forall i | 0 <= i < num ensures 0 <= blocks[i] < |disk| && owner[blocks[i]] == Data(number, i) {
      assert Owns(owner, Lookup(disk, p, i), Data(number, i));
    }
    forall b | 0 <= b < num ensures PathSafe(Target(blocks, disk, used, freed), p, b) {
    }
  }

  // ------------------------------------------------------------------ removing a file

  /** Who owns what once the blocks of `ino` are given back: a pointer block, and a data block behind the first bitmap
      block, stays marked and belongs to no file. */
  ghost function Released(owner: seq<Owner>, blocks: seq<int>, ino: nat): (now: seq<Owner>)
    ensures |now| == |owner|
    ensures forall x | 0 <= x < |owner| :: now[x] == ReleasedAt(owner[x], x, blocks, ino)
  {
    seq(|owner|, x requires 0 <= x < |owner| => ReleasedAt(owner[x], x, blocks, ino))
  }

  ghost function ReleasedAt(o: Owner, x: nat, blocks: seq<int>, ino: nat): Owner
  {
    if x in blocks && x < BITS_PER_BLOCK then Free else if BelongsTo(o, ino) then Other else o
  }

  /** What giving back `blocks` does to the disk and the bitmap. */
  ghost predicate GivenBack(blocks: seq<int>, wasDisk: Disk, wasUsed: seq<bool>, disk: Disk, used: seq<bool>)
  {
    && |wasDisk| == |wasUsed| == |disk| == |used|
    && (forall x | 0 <= x < |disk| :: disk[x] == if x in blocks then Zeros() else wasDisk[x])
    && (forall x | 0 <= x < |used| :: used[x] <==> wasUsed[x] && !(x in blocks && x < BITS_PER_BLOCK))
  }

  lemma FreedIsGivenBack(t: Target, disk: Disk, used: seq<bool>, freed: seq<int>)
    requires OnDisk(t) && Freed(t, |t.blocks|, disk, used, freed)
    ensures GivenBack(t.blocks, t.disk, t.used, disk, used)
  {
    assert t.blocks[..|t.blocks|] == t.blocks;
    forall x | 0 <= x < |disk|
      ensures disk[x] == if x in t.blocks then Zeros() else t.disk[x]
      ensures used[x] <==> t.used[x] && !(x in t.blocks && x < BITS_PER_BLOCK)
    {
      FreedAt(t, |t.blocks|, x);
    }
  }

  /** Every block of the file carries the file's own label. */
  lemma BlocksLabelled(disk: Disk, owner: seq<Owner>, ino: nat, p: Pointers, num: nat, x: int)
    requires Mapped(disk, owner, ino, p, num) && (forall y | 0 <= y < |disk| :: |disk[y]| == N)
    requires x in Blocks(disk, p, num)
    ensures 0 <= x < |owner| && owner[x].Data? && owner[x].ino == ino
  {
    var b :| 0 <= b < num && Blocks(disk, p, num)[b] == x;
    LookupFindsData(disk, owner, ino, p, num, b);
  }

  /** The block part of removing a file: its blocks are given back in order, the file system stays valid and no block
      carries the file's label any more. */
  method RemoveFile(fs: FileSystem, inode: Inode)
    requires Appendable(fs, inode)
    modifies fs
    ensures fs.Valid() && Unclaimed(fs.owner, inode.number) && fs.limits == old(fs.limits)
    ensures fs.freed == old(fs.freed) + Blocks(old(fs.disk), inode.pointers, inode.blockCount)
    ensures fs.owner == Released(old(fs.owner), Blocks(old(fs.disk), inode.pointers, inode.blockCount), inode.number)
    ensures GivenBack(Blocks(old(fs.disk), inode.pointers, inode.blockCount), old(fs.disk), old(fs.used), fs.disk,
      fs.used)
  {
    ghost var blocks := Blocks(fs.disk, inode.pointers, inode.blockCount);
    ghost var t := Target(blocks, fs.disk, fs.used, fs.freed);
    MappedSound(fs.disk, fs.owner, fs.used, fs.freed, inode.number, inode.pointers, inode.blockCount);
    FreeBlocksFromInode(fs, inode, inode.blockCount, t);
    FreedIsGivenBack(t, fs.disk, fs.used, fs.freed);
    ReleasedSane(t.disk, t.used, fs.owner, fs.data, fs.limits, inode.number, inode.pointers, inode.blockCount, fs.disk,
                 fs.used);
    fs.owner := Released(fs.owner, blocks, inode.number);
    fs.data := Blanked(fs.data, blocks);
  }

  lemma ReleasedSane(wasDisk: Disk, wasUsed: seq<bool>, owner: seq<Owner>, data: Disk, limits: map<nat, nat>, ino: nat,
                     p: Pointers, num: nat, disk: Disk, used: seq<bool>)
    requires Mapped(wasDisk, owner, ino, p, num) && Sane(wasDisk, wasUsed, owner, data, limits)
    requires GivenBack(Blocks(wasDisk, p, num), wasDisk, wasUsed, disk, used)
    ensures var blocks := Blocks(wasDisk, p, num);
      Sane(disk, used, Released(owner, blocks, ino), Blanked(data, blocks), limits)
    ensures Unclaimed(Released(owner, Blocks(wasDisk, p, num), ino), ino)
  {
    ReleasedFits(wasDisk, wasUsed, owner, ino, p, num, disk, used);
    SettledFits(wasDisk, owner, data, limits, ino, p, num, disk);
  }

  /** The contents of data blocks once `blocks` have been given back. */
  ghost function Blanked(data: Disk, blocks: seq<int>): (now: Disk)
    ensures |now| == |data| && forall x | 0 <= x < |data| :: now[x] == if x in blocks then Zeros() else data[x]
  {
    seq(|data|, x requires 0 <= x < |data| => if x in blocks then Zeros() else data[x])
  }

  lemma SettledFits(wasDisk: Disk, owner: seq<Owner>, data: Disk,
                    limits: map<nat, nat>, ino: nat, p: Pointers, num: nat,
                    disk: Disk)
    requires Mapped(wasDisk, owner, ino, p, num) && Settled(wasDisk, owner, data) && Limited(owner, limits)
    requires |disk| == |wasDisk|
    requires forall x | 0 <= x < |disk| :: disk[x] == if x in Blocks(wasDisk, p, num) then Zeros() else wasDisk[x]
    ensures var blocks := Blocks(wasDisk, p, num);
      Settled(disk, Released(owner, blocks, ino), Blanked(data, blocks)) &&
        Limited(Released(owner, blocks, ino), limits)
  {
  }

  lemma ReleasedFits(wasDisk: Disk, wasUsed: seq<bool>, owner: seq<Owner>, ino: nat, p: Pointers, num: nat, disk: Disk,
                     used: seq<bool>)
    requires Mapped(wasDisk, owner, ino, p, num) && Consistent(wasDisk, wasUsed, owner)
    requires GivenBack(Blocks(wasDisk, p, num), wasDisk, wasUsed, disk, used)
    ensures Consistent(disk, used, Released(owner, Blocks(wasDisk, p, num), ino))
    ensures Unclaimed(Released(owner, Blocks(wasDisk, p, num), ino), ino)
  {
    var blocks := Blocks(wasDisk, p, num);
    forall x | x in blocks ensures 0 <= x < |owner| && owner[x].Data? && owner[x].ino == ino {
      BlocksLabelled(wasDisk, owner, ino, p, num, x);
    }
  }

  // ------------------------------------------------------------------ allocating and freeing again

  /** What allocating and freeing a file leaves of the bitmap: besides the old marks those of its pointer blocks, and
      those of its data blocks behind the first bitmap block. */
  ghost predicate LeftMarked(wasUsed: seq<bool>, used: seq<bool>, mapped: Disk, p: Pointers, num: nat)
    requires num <= MAX_LOGICAL && |p.direct| == NUM_BLOCKS_DIRECT
  {
    |used| == |wasUsed| && forall x | 0 <= x < |used| ::
      used[x] <==> wasUsed[x] || OnPath(mapped, p, num, x) || (x in Blocks(mapped, p, num) && x >= BITS_PER_BLOCK)
  }

  lemma BitsLeft(was: seq<bool>, now: seq<bool>, disk: Disk, owner: seq<Owner>, ino: nat, p: Pointers, num: nat,
                 after: Disk, used: seq<bool>)
    requires Mapped(disk, owner, ino, p, num) && |was| == |now| == |owner| &&
      (forall x | 0 <= x < |disk| :: |disk[x]| == N)
    requires (forall x | 0 <= x < |was| && was[x] :: now[x]) && NewMarks(was, now) == Reach(disk, p, num)
    requires GivenBack(Blocks(disk, p, num), disk, now, after, used)
    ensures LeftMarked(was, used, disk, p, num)
  {
    forall x | 0 <= x < |was|
      ensures used[x] <==> was[x] || OnPath(disk, p, num, x) || (x in Blocks(disk, p, num) && x >= BITS_PER_BLOCK)
    {
      ReachIs(disk, p, num, x);
      BlocksHold(disk, p, num, x);
      assert x in NewMarks(was, now) <==> !was[x] && now[x];
      PathIsNoData(disk, owner, ino, p, num, x);
    }
  }

  lemma BlocksHold(disk: Disk, p: Pointers, num: nat, x: int)
    requires num <= MAX_LOGICAL && |p.direct| == NUM_BLOCKS_DIRECT
    ensures x in Blocks(disk, p, num) <==> exists b | 0 <= b < num :: Lookup(disk, p, b) == x
  {
    if b :| 0 <= b < num && Lookup(disk, p, b) == x {
      assert Blocks(disk, p, num)[b] == x;
    }
  }

  /** A block on a path is no data block. */
  lemma PathIsNoData(disk: Disk, owner: seq<Owner>, ino: nat, p: Pointers, num: nat, x: int)
    requires Mapped(disk, owner, ino, p, num) && forall y | 0 <= y < |disk| :: |disk[y]| == N
    ensures OnPath(disk, p, num, x) ==> x !in Blocks(disk, p, num)
  {
    if b :| 0 <= b < num && x in LookupPath(disk, p, b) {
      LookupFindsData(disk, owner, ino, p, num, b);
      assert PointsFor(owner, x, ino, b);
      forall c | 0 <= c < num ensures Blocks(disk, p, num)[c] != x {
        LookupFindsData(disk, owner, ino, p, num, c);
      }
    }
  }

  // ------------------------------------------------------------------ when nothing is lost

  lemma {:induction false} CountClearConcat(a: seq<bool>, b: seq<bool>)
    ensures CountClear(a + b) == CountClear(a) + CountClear(b)
  {
    if b == [] {
      assert a + b == a;
    } else {
      CountClearConcat(a, b[..|b| - 1]);
      assert (a + b)[..|a + b| - 1] == a + b[..|b| - 1];
    }
  }

  lemma CountClearSplit(a: seq<bool>, l: nat)
    requires l <= |a|
    ensures CountClear(a) == CountClear(a[..l]) + CountClear(a[l..])
  {
    CountClearConcat(a[..l], a[l..]);
    assert a == a[..l] + a[l..];
  }

  lemma {:induction false} NoneClear(a: seq<bool>)
    requires forall i | 0 <= i < |a| :: a[i]
    ensures CountClear(a) == 0
  {
    if a != [] { NoneClear(a[..|a| - 1]); }
  }

  /** How many of `num` new marks lie in the first `l` bits, by what is clear there. */
  lemma MarksSplit(was: seq<bool>, now: seq<bool>, l: nat)
    requires |was| == |now| && l <= |was| && forall x | 0 <= x < |was| && was[x] :: now[x]
    ensures CountClear(was) - CountClear(now) == CountClear(was[..l]) - CountClear(now[..l]) +
      |NewMarks(was[l..], now[l..])|
  {
    CountClearSplit(was, l);
    CountClearSplit(now, l);
    NewMarksSize(was[l..], now[l..]);
  }

  ghost predicate FirstFitBits(was: seq<bool>, now: seq<bool>)
    requires |was| == |now|
  {
    forall x | 0 <= x < |was| && !was[x] && now[x] :: forall y | 0 <= y < x :: now[y]
  }

  lemma MarksBeyond(was: seq<bool>, now: seq<bool>, l: nat)
    requires |was| == |now| && l <= |was|
    ensures (forall x | x in NewMarks(was, now) :: x < l) <==> NewMarks(was[l..], now[l..]) == {}
  {
    forall x | x in NewMarks(was[l..], now[l..]) ensures l + x in NewMarks(was, now) {
    }
    forall x | x in NewMarks(was, now) && x >= l ensures x - l in NewMarks(was[l..], now[l..]) {
    }
  }

  /** First-fit marks stay in the first `l` bits if and only if there is room for them. */
  lemma RoomExactly(was: seq<bool>, now: seq<bool>, l: nat, num: nat)
    requires |was| == |now| && l <= |was| && forall x | 0 <= x < |was| && was[x] :: now[x]
    requires FirstFitBits(was, now) && CountClear(was) - CountClear(now) == num
    ensures (forall x | x in NewMarks(was, now) :: x < l) <==> CountClear(was[..l]) >= num
  {
    MarksSplit(was, now, l);
    MarksBeyond(was, now, l);
    if x :| x in NewMarks(was, now) && x >= l {
      NoneClear(now[..l]);
    }
  }

  lemma NoPathExactly(disk: Disk, p: Pointers, num: nat)
    requires num <= MAX_LOGICAL
    ensures (forall x :: !OnPath(disk, p, num, x)) <==> num <= NUM_BLOCKS_DIRECT
  {
    if num > NUM_BLOCKS_DIRECT {
      assert p.single in LookupPath(disk, p, LEVEL_ONE);
      assert OnPath(disk, p, num, p.single);
    }
  }

  /** Nothing is lost if and only if the file has direct blocks only and the first bitmap block had room for them. */
  lemma NothingLostExactly(was: seq<bool>, now: seq<bool>, used: seq<bool>, mapped: Disk, p: Pointers, num: nat)
    requires num <= MAX_LOGICAL && |p.direct| == NUM_BLOCKS_DIRECT && LeftMarked(was, used, mapped, p, num)
    requires |was| == |now| && (forall x | 0 <= x < |was| && was[x] :: now[x]) &&
      NewMarks(was, now) == Reach(mapped, p, num)
    requires CountClear(was) - CountClear(now) == Cost(0, false, num) &&
      (num <= NUM_BLOCKS_DIRECT ==> FirstFitBits(was, now))
    ensures used == was <==> num <= NUM_BLOCKS_DIRECT && CountClear(was[..Min(|was|, BITS_PER_BLOCK)]) >= num
  {
    NoPathExactly(mapped, p, num);
    if num > NUM_BLOCKS_DIRECT {
      var x :| OnPath(mapped, p, num, x);
      ReachIs(mapped, p, num, x);
      assert x in NewMarks(was, now) && used[x];
    } else {
      CostIs(num);
      RoomExactly(was, now, Min(|was|, BITS_PER_BLOCK), num);
      DirectLoss(was, now, used, mapped, p, num);
    }
  }

  lemma DirectLoss(was: seq<bool>, now: seq<bool>, used: seq<bool>, mapped: Disk, p: Pointers, num: nat)
    requires num <= NUM_BLOCKS_DIRECT && |p.direct| == NUM_BLOCKS_DIRECT && LeftMarked(was, used, mapped, p, num)
    requires |was| == |now| && NewMarks(was, now) == Reach(mapped, p, num)
    ensures used == was <==> forall x | x in NewMarks(was, now) :: x < Min(|was|, BITS_PER_BLOCK)
  {
    NoPathExactly(mapped, p, num);
    forall x ensures x in NewMarks(was, now) <==> x in Blocks(mapped, p, num) {
      ReachIs(mapped, p, num, x);
      BlocksHold(mapped, p, num, x);
    }
    if used == was {
      forall x | x in NewMarks(was, now) ensures x < BITS_PER_BLOCK {
        assert used[x] == was[x];
      }
    }
  }

  /** What a fresh allocation gives, in terms of the bitmap. */
  lemma FreshIsExact(wasOwner: seq<Owner>, was: seq<bool>, disk: Disk, owner: seq<Owner>, now: seq<bool>, ino: nat,
                     p: Pointers, num: nat)
    requires Mapped(disk, owner, ino, p, num) && (forall x | 0 <= x < |disk| :: |disk[x]| == N)
    requires |was| == |now| == |owner| == |wasOwner| && Extends(wasOwner, owner) && Unclaimed(wasOwner, ino)
    requires forall x | 0 <= x < |owner| :: (was[x] <==> wasOwner[x] != Free) && (now[x] <==> owner[x] != Free)
    requires CountClear(now) == CountClear(was) - Cost(0, false, num)
    ensures NewMarks(was, now) == Reach(disk, p, num) && forall x | 0 <= x < |was| && was[x] :: now[x]
    ensures FirstFit(wasOwner, owner) ==> FirstFitBits(was, now)
  {
    MarksAreReach(disk, owner, ino, p, num, was, now);
    if FirstFit(wasOwner, owner) {
      forall x | 0 <= x < |was| && !was[x] && now[x] ensures forall y | 0 <= y < x :: now[y] {
        assert FullBelow(owner, x);
      }
    }
  }

  /** What was marked keeps its contents, and every block that was not holds zeros unless it is a pointer block. */
  ghost predicate Restored(wasDisk: Disk, wasUsed: seq<bool>, disk: Disk, mapped: Disk, p: Pointers, num: nat)
    requires num <= MAX_LOGICAL
  {
    && |wasDisk| == |wasUsed| == |disk|
    && forall x | 0 <= x < |disk| :: disk[x] == wasDisk[x] || (!wasUsed[x] && OnPath(mapped, p, num, x))
  }

  lemma DataRestored(wasDisk: Disk, was: seq<bool>, wasOwner: seq<Owner>, mapped: Disk, now: seq<bool>,
                     owner: seq<Owner>, ino: nat, p: Pointers, num: nat,
                     disk: Disk, used: seq<bool>)
    requires Consistent(wasDisk, was, wasOwner) && Consistent(mapped, now, owner) && Unclaimed(wasOwner, ino)
    requires OnlyAdds(wasDisk, wasOwner, mapped, owner, ino) && Mapped(mapped, owner, ino, p, num)
    requires NewMarks(was, now) == Reach(mapped, p, num) && GivenBack(Blocks(mapped, p, num), mapped, now, disk, used)
    ensures Restored(wasDisk, was, disk, mapped, p, num)
  {
    forall x | 0 <= x < |disk| ensures disk[x] == wasDisk[x] || (!was[x] && OnPath(mapped, p, num, x)) {
      ReachIs(mapped, p, num, x);
      BlocksHold(mapped, p, num, x);
      assert x in NewMarks(was, now) <==> !was[x] && now[x];
      if x in Blocks(mapped, p, num) {
        BlocksLabelled(mapped, owner, ino, p, num, x);
      }
    }
  }

  /** What an allocation and a removal leave of bitmap and disk. */
  lemma RoundTrip(wasDisk: Disk, was: seq<bool>, wasOwner: seq<Owner>, mapped: Disk, now: seq<bool>, owner: seq<Owner>,
                  ino: nat, p: Pointers, num: nat, disk: Disk, used: seq<bool>)
    requires Consistent(wasDisk, was, wasOwner) && Consistent(mapped, now, owner) && Unclaimed(wasOwner, ino) && num > 0
    requires OnlyAdds(wasDisk, wasOwner, mapped, owner, ino) && Mapped(mapped, owner, ino, p, num)
    requires CountClear(now) == CountClear(was) - Cost(0, false, num)
    requires num <= LEVEL_ONE ==> FirstFit(wasOwner, owner)
    requires GivenBack(Blocks(mapped, p, num), mapped, now, disk, used)
    ensures LeftMarked(was, used, mapped, p, num) && Restored(wasDisk, was, disk, mapped, p, num)
    ensures used == was <==> num <= NUM_BLOCKS_DIRECT && CountClear(was[..Min(|was|, BITS_PER_BLOCK)]) >= num
  {
    FreshIsExact(wasOwner, was, mapped, owner, now, ino, p, num);
    BitsLeft(was, now, mapped, owner, ino, p, num, disk, used);
    DataRestored(wasDisk, was, wasOwner, mapped, now, owner, ino, p, num, disk, used);
    NothingLostExactly(was, now, used, mapped, p, num);
  }

  /** Allocating to a fresh inode and removing the file again. The blocks come back once each and in order, and the disk
      is as it was but for pointer blocks. The bits that stay set are known one by one. The bitmap is as it was if and
      only if the file fits the direct pointers and the first bitmap block. */
  method AllocateThenFree(fs: FileSystem, number: nat, num: nat) returns (ghost mapped: Disk, ghost p: Pointers)
    requires fs.Valid() && Unclaimed(fs.owner, number)
    requires 0 < num <= MAX_LOGICAL && CountClear(fs.used) >= Cost(0, false, num)
    modifies fs
    ensures fs.Valid() && Unclaimed(fs.owner, number)
    ensures |p.direct| == NUM_BLOCKS_DIRECT && fs.freed == old(fs.freed) + Blocks(mapped, p, num)
    ensures forall b, c | 0 <= b < c < num :: Lookup(mapped, p, b) != Lookup(mapped, p, c)
    ensures LeftMarked(old(fs.used), fs.used, mapped, p, num) &&
      Restored(old(fs.disk), old(fs.used), fs.disk, mapped, p, num)
    ensures fs.used == old(fs.used) <==>
      num <= NUM_BLOCKS_DIRECT && CountClear(old(fs.used)[..Min(|old(fs.used)|, BITS_PER_BLOCK)]) >= num
  {
    var inode := AllocateFresh(fs, number, num);
    mapped, p := fs.disk, inode.pointers;
    ghost var now, owner := fs.used, fs.owner;
    RemoveFile(fs, inode);
    RoundTrip(old(fs.disk), old(fs.used), old(fs.owner), mapped, now, owner, number, p, num, fs.disk, fs.used);
  }
}
