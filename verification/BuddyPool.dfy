/** One range of the buddy allocator as a value: the address-ordered chain of its blocks, the free tree as
    a bucket of block starts per order, the table of used blocks and the page counter. Addresses are page
    numbers. The range was carved into `regions` blocks of MAX_ORDER at boot; all of these but the last
    carry the first-block flag. */
module BuddyPool {
  import opened Prelude

  const MAX_ORDER: nat := 10
  const REGION: nat := 1024     // pages in a block of MAX_ORDER

  lemma RegionIsMaxOrder()
    ensures Pow2(MAX_ORDER) == REGION
  {
    assert Pow2(5) == 32;
  }

  datatype Block = Block(start: nat, order: nat, free: bool, first: bool, inTree: bool)

  function Size(b: Block): nat
  {
    Pow2(b.order)
  }

  datatype Pool = Pool(chain: seq<Block>, buckets: seq<set<nat>>, used: set<nat>, total: int)

  // ------------------------------------------------------------------ what holds in every run

  /** The chain covers `lo .. hi` without gap or overlap. */
  ghost predicate Tiles(chain: seq<Block>, lo: nat, hi: nat)
  {
    && |chain| > 0 && chain[0].start == lo
    && (forall i | 0 <= i < |chain| - 1 :: chain[i + 1].start == chain[i].start + Size(chain[i]))
    && chain[|chain| - 1].start + Size(chain[|chain| - 1]) == hi
  }

  /** The flagged blocks start exactly at the region boundaries, save the last region's. */
  ghost predicate Heads(chain: seq<Block>, lo: nat, regions: nat)
  {
    && (forall b | b in chain && b.first :: IsBoundary(b.start, lo, regions))
    && (forall s | IsBoundary(s, lo, regions) :: HasHead(chain, s))
  }

  ghost predicate IsBoundary(s: nat, lo: nat, regions: nat)
  {
    lo <= s && (s - lo) % REGION == 0 && s + REGION < lo + regions * REGION
  }

  ghost predicate HasHead(chain: seq<Block>, s: nat)
  {
    exists b | b in chain :: b.first && b.start == s
  }

  /** The bucket of an order holds starts of free blocks of that order, each flagged as in the tree unless it
      is of MAX_ORDER; a flagged block is in its bucket. */
  ghost predicate Filed(chain: seq<Block>, buckets: seq<set<nat>>)
  {
    && |buckets| == MAX_ORDER + 1
    && (forall b | b in chain :: b.order <= MAX_ORDER)
    && (forall b | b in chain && b.inTree :: b.free && b.start in buckets[b.order])
    && (forall o, s | 0 <= o <= MAX_ORDER && s in buckets[o] :: FiledAt(chain, o, s))
  }

  ghost predicate FiledAt(chain: seq<Block>, o: nat, s: nat)
  {
    exists b | b in chain :: b.start == s && b.order == o && b.free && (b.inTree || o == MAX_ORDER)
  }

  /** The used table lists the starts of the blocks that are not free. */
  ghost predicate Booked(chain: seq<Block>, used: set<nat>)
  {
    && (forall b | b in chain && !b.free :: b.start in used)
    && (forall s | s in used :: HasUsed(chain, s))
  }

  ghost predicate HasUsed(chain: seq<Block>, s: nat)
  {
    exists b | b in chain :: b.start == s && !b.free
  }

  /** Pages of the blocks that are not free. */
  ghost function UsedPages(chain: seq<Block>): nat
  {
    if chain == [] then 0 else UsedSize(chain[0]) + UsedPages(chain[1..])
  }

  ghost function UsedSize(b: Block): nat
  {
    if b.free then 0 else Size(b)
  }

  ghost predicate Inv(p: Pool, lo: nat, regions: nat)
  {
    && lo > 0 && regions > 0
    && Tiles(p.chain, lo, lo + regions * REGION)
    && Heads(p.chain, lo, regions)
    && Filed(p.chain, p.buckets)
    && Booked(p.chain, p.used)
    && p.total == UsedPages(p.chain)
  }

  // ------------------------------------------------------------------ editing a chain

  /** The chain with the `n` blocks from `k` on replaced. */
  function Splice(chain: seq<Block>, k: nat, n: nat, blocks: seq<Block>): seq<Block>
    requires k + n <= |chain|
  {
    chain[..k] + blocks + chain[k + n..]
  }

  lemma {:induction false} StartsIncrease(chain: seq<Block>, lo: nat, hi: nat, i: nat, j: nat)
    requires Tiles(chain, lo, hi) && i < j < |chain|
    ensures chain[i].start + Size(chain[i]) <= chain[j].start
  {
    if i + 1 < j {
      StartsIncrease(chain, lo, hi, i, j - 1);
    }
  }

  /** A start address names one block. */
  lemma StartIsUnique(chain: seq<Block>, lo: nat, hi: nat, k: nat, b: Block)
    requires Tiles(chain, lo, hi) && k < |chain| && b in chain && b.start == chain[k].start
    ensures b == chain[k]
  {
    var i :| 0 <= i < |chain| && chain[i] == b;
    if i < k { StartsIncrease(chain, lo, hi, i, k); }
    if k < i { StartsIncrease(chain, lo, hi, k, i); }
  }

  lemma {:induction false} UsedPagesConcat(a: seq<Block>, b: seq<Block>)
    ensures UsedPages(a + b) == UsedPages(a) + UsedPages(b)
  {
    if a == [] {
      assert a + b == b;
    } else {
      assert (a + b)[1..] == a[1..] + b;
      UsedPagesConcat(a[1..], b);
    }
  }

  lemma UsedPagesSplice(chain: seq<Block>, k: nat, n: nat, blocks: seq<Block>)
    requires k + n <= |chain|
    ensures UsedPages(Splice(chain, k, n, blocks)) == UsedPages(chain) - UsedPages(chain[k..k + n]) + UsedPages(blocks)
  {
    assert chain == chain[..k] + (chain[k..k + n] + chain[k + n..]);
    UsedPagesConcat(chain[..k], chain[k..k + n] + chain[k + n..]);
    UsedPagesConcat(chain[k..k + n], chain[k + n..]);
    UsedPagesConcat(chain[..k] + blocks, chain[k + n..]);
    UsedPagesConcat(chain[..k], blocks);
  }

  /** Replacing blocks by blocks that tile the same stretch keeps the tiling. */
  lemma TilesSplice(chain: seq<Block>, lo: nat, hi: nat, k: nat, n: nat, blocks: seq<Block>)
    requires Tiles(chain, lo, hi) && 0 < n && k + n <= |chain|
    requires Tiles(blocks, chain[k].start, chain[k + n - 1].start + Size(chain[k + n - 1]))
    ensures Tiles(Splice(chain, k, n, blocks), lo, hi)
  {
    var r, m := Splice(chain, k, n, blocks), |blocks|;
    forall i | 0 <= i < |r| - 1
      ensures r[i + 1].start == r[i].start + Size(r[i])
    {
      if i + 1 < k {
        assert chain[i + 1].start == chain[i].start + Size(chain[i]);
      } else if i + 1 == k {
        assert chain[i + 1].start == chain[i].start + Size(chain[i]);
      } else if i + 1 < k + m {
        assert blocks[i - k + 1].start == blocks[i - k].start + Size(blocks[i - k]);
      } else {
        var j := i - m + n;
        assert chain[j + 1].start == chain[j].start + Size(chain[j]);
      }
    }
  }

  /** What a splice does to membership. */
  lemma SpliceMembers(chain: seq<Block>, k: nat, n: nat, blocks: seq<Block>, b: Block)
    requires k + n <= |chain|
    ensures b in Splice(chain, k, n, blocks) <==> b in chain[..k] || b in blocks || b in chain[k + n..]
    ensures b in chain <==> b in chain[..k] || b in chain[k..k + n] || b in chain[k + n..]
  {
    assert chain == chain[..k] + chain[k..k + n] + chain[k + n..];
  }

  lemma HeadOf(chain: seq<Block>, s: nat) returns (b: Block)
    requires HasHead(chain, s)
    ensures b in chain && b.first && b.start == s
  {
    b :| b in chain && b.first && b.start == s;
  }

  /** The heads survive a splice that keeps the flagged starts. */
  lemma HeadsSplice(chain: seq<Block>, lo: nat, regions: nat, k: nat, n: nat, blocks: seq<Block>)
    requires Heads(chain, lo, regions) && k + n <= |chain|
    requires forall s :: HasHead(chain[k..k + n], s) <==> HasHead(blocks, s)
    ensures Heads(Splice(chain, k, n, blocks), lo, regions)
  {
    var r := Splice(chain, k, n, blocks);
    forall b | b in r && b.first ensures IsBoundary(b.start, lo, regions) {
      SpliceMembers(chain, k, n, blocks, b);
      if b in blocks {
        assert HasHead(blocks, b.start);
        var c := HeadOf(chain[k..k + n], b.start);
        assert c in chain;
      } else {
        assert b in chain;
      }
    }
    forall s | IsBoundary(s, lo, regions) ensures HasHead(r, s) {
      assert HasHead(chain, s);
      var b := HeadOf(chain, s);
      SpliceMembers(chain, k, n, blocks, b);
      if b in chain[k..k + n] {
        assert HasHead(chain[k..k + n], s);
        var c := HeadOf(blocks, s);
        SpliceMembers(chain, k, n, blocks, c);
      }
    }
  }

  lemma BookedSplice(chain: seq<Block>, used: set<nat>, k: nat, n: nat, blocks: seq<Block>, used': set<nat>)
    requires Booked(chain, used) && k + n <= |chain|
    requires forall b | b in blocks && !b.free :: b.start in used'
    requires forall b | b in chain[..k] + chain[k + n..] && !b.free :: b.start in used'
    requires forall s | s in used' :: HasUsed(blocks, s) || (s in used && !HasUsed(chain[k..k + n], s))
    ensures Booked(Splice(chain, k, n, blocks), used')
  {
    var r := Splice(chain, k, n, blocks);
    forall b | b in r && !b.free ensures b.start in used' {
      SpliceMembers(chain, k, n, blocks, b);
      if b !in blocks { assert b in chain[..k] + chain[k + n..]; }
    }
    forall s | s in used' ensures HasUsed(r, s) {
      if HasUsed(blocks, s) {
        var b :| b in blocks && b.start == s && !b.free;
        SpliceMembers(chain, k, n, blocks, b);
      } else {
        assert HasUsed(chain, s);
        var b :| b in chain && b.start == s && !b.free;
        SpliceMembers(chain, k, n, blocks, b);
        assert b !in chain[k..k + n];
      }
    }
  }

  lemma FiledSplice(chain: seq<Block>, buckets: seq<set<nat>>, k: nat, n: nat, blocks: seq<Block>,
                    buckets': seq<set<nat>>)
    requires Filed(chain, buckets) && k + n <= |chain| && |buckets'| == |buckets|
    requires forall b | b in blocks :: b.order <= MAX_ORDER && (b.inTree ==> b.free && b.start in buckets'[b.order])
    requires forall b | b in chain[..k] + chain[k + n..] && b.inTree ::
      b.order <= MAX_ORDER && b.start in buckets'[b.order]
    requires forall o, s | 0 <= o <= MAX_ORDER && s in buckets'[o] ::
      FiledAt(blocks, o, s) || (s in buckets[o] && !FiledAt(chain[k..k + n], o, s))
    ensures Filed(Splice(chain, k, n, blocks), buckets')
  {
    var r := Splice(chain, k, n, blocks);
    forall b | b in r
      ensures b.order <= MAX_ORDER && (b.inTree ==> b.free && b.start in buckets'[b.order])
    {
      SpliceMembers(chain, k, n, blocks, b);
      if b !in blocks {
        assert b in chain && b in chain[..k] + chain[k + n..];
      }
    }
    forall o, s | 0 <= o <= MAX_ORDER && s in buckets'[o] ensures FiledAt(r, o, s) {
      if FiledAt(blocks, o, s) {
        var b :| b in blocks && b.start == s && b.order == o && b.free && (b.inTree || o == MAX_ORDER);
        SpliceMembers(chain, k, n, blocks, b);
      } else {
        assert FiledAt(chain, o, s);
        var b :| b in chain && b.start == s && b.order == o && b.free && (b.inTree || o == MAX_ORDER);
        SpliceMembers(chain, k, n, blocks, b);
        assert b !in chain[k..k + n];
      }
    }
  }

  // ------------------------------------------------------------------ the operations

  /** A free block that the tree does not hold. */
  ghost predicate Detached(p: Pool, k: nat)
  {
    && k < |p.chain| && p.chain[k].free && !p.chain[k].inTree
    && p.chain[k].order <= MAX_ORDER < |p.buckets| && p.chain[k].start !in p.buckets[p.chain[k].order]
  }

  /** `lookup_tree` with removal, and the clearing of the in-tree flag. */
  function TakeAt(p: Pool, k: nat): Pool
    requires k < |p.chain| && p.chain[k].order < |p.buckets|
  {
    var b := p.chain[k];
    p.(chain := Splice(p.chain, k, 1, [b.(inTree := false)]),
      buckets := p.buckets[b.order := p.buckets[b.order] - {b.start}])
  }

  /** `insert_tree_node`, with the in-tree flag. */
  function FileAt(p: Pool, k: nat): Pool
    requires k < |p.chain| && p.chain[k].order < |p.buckets|
  {
    var b := p.chain[k];
    p.(chain := Splice(p.chain, k, 1, [b.(inTree := true)]),
      buckets := p.buckets[b.order := p.buckets[b.order] + {b.start}])
  }

  function Lower(b: Block): Block
    requires b.order > 0
  {
    b.(order := b.order - 1)
  }

  function Upper(b: Block): Block
    requires b.order > 0
  {
    Block(b.start + Pow2(b.order - 1), b.order - 1, true, false, true)
  }

  /** `buddy_split`: the upper half becomes a new free block in the tree. */
  function SplitAt(p: Pool, k: nat): Pool
    requires k < |p.chain| && 0 < p.chain[k].order <= |p.buckets|
  {
    var upper := Upper(p.chain[k]);
    Pool(Splice(p.chain, k, 1, [Lower(p.chain[k]), upper]),
         p.buckets[upper.order := p.buckets[upper.order] + {upper.start}], p.used, p.total)
  }

  /** The merge of `buddy_coalesce`: the next block is absorbed, and taken out of the tree if it is flagged. */
  function AbsorbAt(p: Pool, k: nat): Pool
    requires k + 1 < |p.chain| && p.chain[k + 1].order < |p.buckets|
  {
    var b, next := p.chain[k], p.chain[k + 1];
    p.(chain := Splice(p.chain, k, 2, [b.(order := b.order + 1)]),
       buckets := if next.inTree then p.buckets[next.order := p.buckets[next.order] - {next.start}] else p.buckets)
  }

  /** The block is handed out: entered in the used table, marked and counted. */
  function BookAt(p: Pool, k: nat): Pool
    requires k < |p.chain|
  {
    var b := p.chain[k];
    p.(chain := Splice(p.chain, k, 1, [b.(free := false)]), used := p.used + {b.start}, total := p.total + Size(b))
  }

  /** The block comes back: out of the used table, free, not in the tree. */
  function UnbookAt(p: Pool, k: nat): Pool
    requires k < |p.chain|
  {
    var b := p.chain[k];
    p.(chain := Splice(p.chain, k, 1, [b.(free := true, inTree := false)]), used := p.used - {b.start},
      total := p.total - Size(b))
  }

  /** Only the marks of block `k` change. */
  lemma RetouchHeads(chain: seq<Block>, lo: nat, regions: nat, k: nat, c: Block)
    requires Heads(chain, lo, regions) && k < |chain|
    requires c.start == chain[k].start && c.first == chain[k].first
    ensures Heads(Splice(chain, k, 1, [c]), lo, regions)
  {
    var b := chain[k];
    assert chain[k..k + 1] == [b];
    forall s ensures HasHead([b], s) <==> HasHead([c], s) {
      assert c in [c] && b in [b];
    }
    HeadsSplice(chain, lo, regions, k, 1, [c]);
  }

  lemma RetouchPages(chain: seq<Block>, k: nat, c: Block)
    requires k < |chain|
    ensures UsedPages(Splice(chain, k, 1, [c])) == UsedPages(chain) - UsedSize(chain[k]) + UsedSize(c)
  {
    assert chain[k..k + 1] == [chain[k]];
    UsedPagesSplice(chain, k, 1, [c]);
    OneUsed(c);
    OneUsed(chain[k]);
  }

  lemma OneUsed(b: Block)
    ensures UsedPages([b]) == UsedSize(b)
  {
    assert [b][1..] == [];
  }

  lemma FreeIsNotBooked(chain: seq<Block>, lo: nat, hi: nat, used: set<nat>, k: nat)
    requires Tiles(chain, lo, hi) && Booked(chain, used) && k < |chain|
    ensures chain[k].start in used <==> !chain[k].free
  {
    assert chain[k] in chain;
    if chain[k].start in used {
      assert HasUsed(chain, chain[k].start);
      var b :| b in chain && b.start == chain[k].start && !b.free;
      StartIsUnique(chain, lo, hi, k, b);
    }
  }

  lemma RetouchBooked(chain: seq<Block>, lo: nat, hi: nat, used: set<nat>, k: nat, c: Block, used': set<nat>)
    requires Tiles(chain, lo, hi) && Booked(chain, used) && k < |chain| && c.start == chain[k].start
    requires used' == if c.free then used - {c.start} else used + {c.start}
    ensures Booked(Splice(chain, k, 1, [c]), used')
  {
    assert chain[k..k + 1] == [chain[k]];
    forall d | d in chain[..k] + chain[k + 1..] ensures d in chain && d.start != c.start {
      OtherStart(chain, lo, hi, k, 1, d);
    }
    forall s | s in used' ensures HasUsed([c], s) || (s in used && !HasUsed(chain[k..k + 1], s)) {
      if s == c.start { assert c in [c]; }
    }
    BookedSplice(chain, used, k, 1, [c], used');
  }

  lemma RetouchFiled(chain: seq<Block>, lo: nat, hi: nat,
                     buckets: seq<set<nat>>, k: nat, c: Block, buckets': seq<set<nat>>)
    requires Tiles(chain, lo, hi) && Filed(chain, buckets) && k < |chain|
    requires c.start == chain[k].start && c.order == chain[k].order && (c.inTree ==> c.free)
    requires |buckets'| == |buckets| && buckets'[c.order] == if c.inTree then buckets[c.order] + {c.start}
      else buckets[c.order] - {c.start}
    requires forall o | 0 <= o <= MAX_ORDER && o != c.order :: buckets'[o] == buckets[o]
    ensures Filed(Splice(chain, k, 1, [c]), buckets')
  {
    assert chain[k] in chain && chain[k..k + 1] == [chain[k]];
    forall d | d in chain[..k] + chain[k + 1..] && d.inTree
      ensures d.order <= MAX_ORDER && d.start in buckets'[d.order]
    {
      OtherStart(chain, lo, hi, k, 1, d);
    }
    forall o, s | 0 <= o <= MAX_ORDER && s in buckets'[o]
      ensures FiledAt([c], o, s) || (s in buckets[o] && !FiledAt(chain[k..k + 1], o, s))
    {
      if o == c.order && s == c.start { assert c in [c]; }
    }
    FiledSplice(chain, buckets, k, 1, [c], buckets');
  }

  /** Changing the marks of one block, with the tables changed to match, keeps the invariant. */
  lemma Retouch(p: Pool, lo: nat, regions: nat, k: nat, c: Block, q: Pool)
    requires Inv(p, lo, regions) && k < |p.chain|
    requires c.start == p.chain[k].start && c.order == p.chain[k].order && c.first == p.chain[k].first
    requires q.chain == Splice(p.chain, k, 1, [c]) && Filed(q.chain, q.buckets)
    requires q.used == if c.free then p.used - {c.start} else p.used + {c.start}
    requires q.total == p.total - UsedSize(p.chain[k]) + UsedSize(c)
    ensures Inv(q, lo, regions)
  {
    var hi := lo + regions * REGION;
    TilesSplice(p.chain, lo, hi, k, 1, [c]);
    RetouchHeads(p.chain, lo, regions, k, c);
    RetouchPages(p.chain, k, c);
    RetouchBooked(p.chain, lo, hi, p.used, k, c, q.used);
  }

  lemma TakeKeeps(p: Pool, lo: nat, regions: nat, k: nat)
    requires Inv(p, lo, regions) && k < |p.chain| && p.chain[k].free
    ensures Inv(TakeAt(p, k), lo, regions) && Detached(TakeAt(p, k), k)
  {
    var c, hi := p.chain[k].(inTree := false), lo + regions * REGION;
    FreeIsNotBooked(p.chain, lo, hi, p.used, k);
    RetouchFiled(p.chain, lo, hi, p.buckets, k, c, TakeAt(p, k).buckets);
    Retouch(p, lo, regions, k, c, TakeAt(p, k));
  }

  /** Blocks outside a spliced stretch have other starts. */
  lemma OtherStart(chain: seq<Block>, lo: nat, hi: nat, k: nat, n: nat, d: Block)
    requires Tiles(chain, lo, hi) && k + n <= |chain| && d in chain[..k] + chain[k + n..]
    ensures d in chain && forall i | k <= i < k + n :: d.start != chain[i].start
  {
    var r := chain[..k] + chain[k + n..];
    var j :| 0 <= j < |r| && r[j] == d;
    var i := if j < k then j else j + n;
    assert chain[i] == d;
    forall m | k <= m < k + n ensures d.start != chain[m].start {
      if i < m { StartsIncrease(chain, lo, hi, i, m); } else { StartsIncrease(chain, lo, hi, m, i); }
    }
  }

  lemma FileKeeps(p: Pool, lo: nat, regions: nat, k: nat)
    requires Inv(p, lo, regions) && k < |p.chain| && p.chain[k].free
    ensures Inv(FileAt(p, k), lo, regions)
  {
    var c, hi := p.chain[k].(inTree := true), lo + regions * REGION;
    assert p.chain[k] in p.chain;
    FreeIsNotBooked(p.chain, lo, hi, p.used, k);
    RetouchFiled(p.chain, lo, hi, p.buckets, k, c, FileAt(p, k).buckets);
    Retouch(p, lo, regions, k, c, FileAt(p, k));
  }

  lemma BookKeeps(p: Pool, lo: nat, regions: nat, k: nat)
    requires Inv(p, lo, regions) && Detached(p, k)
    ensures Inv(BookAt(p, k), lo, regions)
  {
    var c, hi := p.chain[k].(free := false), lo + regions * REGION;
    assert p.buckets[c.order] - {c.start} == p.buckets[c.order];
    RetouchFiled(p.chain, lo, hi, p.buckets, k, c, p.buckets);
    Retouch(p, lo, regions, k, c, BookAt(p, k));
  }

  /** A block that is not free is in no bucket. */
  lemma UsedIsNotFiled(p: Pool, lo: nat, regions: nat, k: nat)
    requires Inv(p, lo, regions) && k < |p.chain| && !p.chain[k].free
    ensures !p.chain[k].inTree && forall o | 0 <= o <= MAX_ORDER :: p.chain[k].start !in p.buckets[o]
  {
    assert p.chain[k] in p.chain;
    forall o | 0 <= o <= MAX_ORDER ensures p.chain[k].start !in p.buckets[o] {
      if p.chain[k].start in p.buckets[o] {
        var b := FiledBlock(p.chain, o, p.chain[k].start);
        StartIsUnique(p.chain, lo, lo + regions * REGION, k, b);
      }
    }
  }

  lemma FiledBlock(chain: seq<Block>, o: nat, s: nat) returns (b: Block)
    requires FiledAt(chain, o, s)
    ensures b in chain && b.start == s && b.order == o && b.free && (b.inTree || o == MAX_ORDER)
  {
    b :| b in chain && b.start == s && b.order == o && b.free && (b.inTree || o == MAX_ORDER);
  }

  lemma UnbookKeeps(p: Pool, lo: nat, regions: nat, k: nat)
    requires Inv(p, lo, regions) && k < |p.chain| && !p.chain[k].free
    ensures Inv(UnbookAt(p, k), lo, regions) && Detached(UnbookAt(p, k), k)
  {
    var c, hi := p.chain[k].(free := true, inTree := false), lo + regions * REGION;
    assert p.chain[k] in p.chain;
    UsedIsNotFiled(p, lo, regions, k);
    assert p.buckets[c.order] - {c.start} == p.buckets[c.order];
    RetouchFiled(p.chain, lo, hi, p.buckets, k, c, p.buckets);
    Retouch(p, lo, regions, k, c, UnbookAt(p, k));
  }

  /** A start is filed under the order of its block only, and below MAX_ORDER only if the block is flagged. */
  lemma FiledUnderItsOrder(p: Pool, lo: nat, regions: nat, k: nat, o: nat)
    requires Inv(p, lo, regions) && k < |p.chain| && o <= MAX_ORDER && p.chain[k].start in p.buckets[o]
    ensures p.chain[k].order == o && p.chain[k].free && (p.chain[k].inTree || o == MAX_ORDER)
  {
    var b := FiledBlock(p.chain, o, p.chain[k].start);
    StartIsUnique(p.chain, lo, lo + regions * REGION, k, b);
  }

  lemma HalvesTile(b: Block, lower: Block, upper: Block)
    requires b.order > 0 && lower.order == upper.order == b.order - 1
    requires lower.start == b.start && upper.start == b.start + Pow2(b.order - 1)
    ensures Tiles([lower, upper], b.start, b.start + Size(b))
  {
    assert Size(b) == 2 * Pow2(b.order - 1);
  }

  lemma SplitFiled(chain: seq<Block>, buckets: seq<set<nat>>, k: nat, lower: Block, upper: Block)
    requires Filed(chain, buckets) && k < |chain| && 0 < chain[k].order
    requires !chain[k].inTree && chain[k].start !in buckets[chain[k].order]
    requires lower.order == upper.order == chain[k].order - 1 && !lower.inTree && upper.inTree && upper.free
    ensures Filed(Splice(chain, k, 1, [lower, upper]), buckets[upper.order := buckets[upper.order] + {upper.start}])
  {
    var b, o := chain[k], upper.order;
    assert chain[k..k + 1] == [b] && b in chain;
    var buckets' := buckets[o := buckets[o] + {upper.start}];
    forall d | d in chain[..k] + chain[k + 1..] && d.inTree
      ensures d.order <= MAX_ORDER && d.start in buckets'[d.order]
    {
      assert d in chain;
    }
    forall o', s | 0 <= o' <= MAX_ORDER && s in buckets'[o']
      ensures FiledAt([lower, upper], o', s) || (s in buckets[o'] && !FiledAt([b], o', s))
    {
      if o' == o && s == upper.start { assert upper in [lower, upper]; }
    }
    FiledSplice(chain, buckets, k, 1, [lower, upper], buckets');
  }

  /** The parts of the invariant, put together. */
  lemma Assemble(p: Pool, lo: nat, regions: nat)
    requires lo > 0 && regions > 0 && Tiles(p.chain, lo, lo + regions * REGION) && Heads(p.chain, lo, regions)
    requires Filed(p.chain, p.buckets) && Booked(p.chain, p.used) && p.total == UsedPages(p.chain)
    ensures Inv(p, lo, regions)
  {
  }

  lemma SplitKeeps(p: Pool, lo: nat, regions: nat, k: nat)
    requires Inv(p, lo, regions) && Detached(p, k) && p.chain[k].order > 0
    ensures Inv(SplitAt(p, k), lo, regions) && Detached(SplitAt(p, k), k)
  {
    var b := p.chain[k];
    HalvesTile(b, Lower(b), Upper(b));
    TilesSplice(p.chain, lo, lo + regions * REGION, k, 1, [Lower(b), Upper(b)]);
    SplitHeads(p.chain, lo, regions, k, Lower(b), Upper(b));
    SplitFiled(p.chain, p.buckets, k, Lower(b), Upper(b));
    SplitBooked(p.chain, p.used, k, Lower(b), Upper(b));
    SplitPages(p.chain, k, Lower(b), Upper(b));
    Assemble(SplitAt(p, k), lo, regions);
    LowerDetached(p, lo, regions, k);
  }

  lemma LowerDetached(p: Pool, lo: nat, regions: nat, k: nat)
    requires Inv(p, lo, regions) && Detached(p, k) && p.chain[k].order > 0
    ensures Detached(SplitAt(p, k), k)
  {
    var o := p.chain[k].order - 1;
    if p.chain[k].start in p.buckets[o] { FiledUnderItsOrder(p, lo, regions, k, o); }
  }

  lemma SplitHeads(chain: seq<Block>, lo: nat, regions: nat, k: nat, lower: Block, upper: Block)
    requires Heads(chain, lo, regions) && k < |chain|
    requires lower.start == chain[k].start && lower.first == chain[k].first && !upper.first
    ensures Heads(Splice(chain, k, 1, [lower, upper]), lo, regions)
  {
    var b := chain[k];
    assert chain[k..k + 1] == [b];
    forall s ensures HasHead([b], s) <==> HasHead([lower, upper], s) {
      assert lower in [lower, upper] && b in [b];
    }
    HeadsSplice(chain, lo, regions, k, 1, [lower, upper]);
  }

  lemma SplitBooked(chain: seq<Block>, used: set<nat>, k: nat, lower: Block, upper: Block)
    requires Booked(chain, used) && k < |chain| && chain[k].free && lower.free && upper.free
    ensures Booked(Splice(chain, k, 1, [lower, upper]), used)
  {
    assert chain[k..k + 1] == [chain[k]];
    forall d | d in chain[..k] + chain[k + 1..] && !d.free ensures d.start in used { assert d in chain; }
    BookedSplice(chain, used, k, 1, [lower, upper], used);
  }

  lemma SplitPages(chain: seq<Block>, k: nat, lower: Block, upper: Block)
    requires k < |chain| && chain[k].free && lower.free && upper.free
    ensures UsedPages(Splice(chain, k, 1, [lower, upper])) == UsedPages(chain)
  {
    assert chain[k..k + 1] == [chain[k]];
    UsedPagesSplice(chain, k, 1, [lower, upper]);
    OneUsed(chain[k]);
    assert [lower, upper] == [lower] + [upper];
    UsedPagesConcat([lower], [upper]);
    OneUsed(lower);
    OneUsed(upper);
  }

  /** The guard of the merge: the two blocks are free, of one order below MAX_ORDER, and the second one is not
      the first block of a region. */
  predicate Mergeable(chain: seq<Block>, k: nat)
  {
    && k + 1 < |chain| && chain[k].order < MAX_ORDER && chain[k].order == chain[k + 1].order
    && chain[k].free && chain[k + 1].free && !chain[k + 1].first
  }

  lemma AbsorbFiled(chain: seq<Block>, lo: nat, hi: nat,
                    buckets: seq<set<nat>>, k: nat, c: Block, buckets': seq<set<nat>>)
    requires Tiles(chain, lo, hi) && Filed(chain, buckets) && Mergeable(chain, k)
    requires !chain[k].inTree && chain[k].start !in buckets[chain[k].order] &&
      c == chain[k].(order := chain[k].order + 1)
    requires var next := chain[k + 1];
      && buckets' == (if next.inTree then buckets[next.order := buckets[next.order] - {next.start}] else buckets)
      && (!next.inTree ==> next.start !in buckets[next.order])
    ensures Filed(Splice(chain, k, 2, [c]), buckets')
  {
    AbsorbOthers(chain, lo, hi, buckets, k, buckets');
    assert chain[k..k + 2] == [chain[k], chain[k + 1]];
    FiledSplice(chain, buckets, k, 2, [c], buckets');
  }

  lemma AbsorbOthers(chain: seq<Block>, lo: nat, hi: nat, buckets: seq<set<nat>>, k: nat, buckets': seq<set<nat>>)
    requires Tiles(chain, lo, hi) && Filed(chain, buckets) && Mergeable(chain, k)
    requires buckets' == buckets ||
      buckets' == buckets[chain[k + 1].order := buckets[chain[k + 1].order] - {chain[k + 1].start}]
    ensures forall d | d in chain[..k] + chain[k + 2..] && d.inTree ::
      d.order <= MAX_ORDER && d.start in buckets'[d.order]
  {
    forall d | d in chain[..k] + chain[k + 2..] && d.inTree
      ensures d.order <= MAX_ORDER && d.start in buckets'[d.order]
    {
      OtherStart(chain, lo, hi, k, 2, d);
      assert d.start != chain[k + 1].start;
    }
  }

  lemma AbsorbHeads(chain: seq<Block>, lo: nat, regions: nat, k: nat, c: Block)
    requires Heads(chain, lo, regions) && k + 1 < |chain| && !chain[k + 1].first
    requires c.start == chain[k].start && c.first == chain[k].first
    ensures Heads(Splice(chain, k, 2, [c]), lo, regions)
  {
    var b, next := chain[k], chain[k + 1];
    assert chain[k..k + 2] == [b, next];
    forall s ensures HasHead([b, next], s) <==> HasHead([c], s) {
      assert c in [c] && b in [b, next];
    }
    HeadsSplice(chain, lo, regions, k, 2, [c]);
  }

  lemma AbsorbBooked(chain: seq<Block>, used: set<nat>, k: nat, c: Block)
    requires Booked(chain, used) && k + 1 < |chain| && chain[k].free && chain[k + 1].free && c.free
    ensures Booked(Splice(chain, k, 2, [c]), used)
  {
    assert chain[k..k + 2] == [chain[k], chain[k + 1]];
    forall d | d in chain[..k] + chain[k + 2..] && !d.free ensures d.start in used { assert d in chain; }
    BookedSplice(chain, used, k, 2, [c], used);
  }

  lemma AbsorbPages(chain: seq<Block>, k: nat, c: Block)
    requires k + 1 < |chain| && chain[k].free && chain[k + 1].free && c.free
    ensures UsedPages(Splice(chain, k, 2, [c])) == UsedPages(chain)
  {
    var b, next := chain[k], chain[k + 1];
    assert chain[k..k + 2] == [b, next] == [b] + [next];
    UsedPagesSplice(chain, k, 2, [c]);
    UsedPagesConcat([b], [next]);
    OneUsed(b);
    OneUsed(next);
    OneUsed(c);
  }

  lemma AbsorbKeeps(p: Pool, lo: nat, regions: nat, k: nat)
    requires Inv(p, lo, regions) && Detached(p, k) && Mergeable(p.chain, k)
    ensures Inv(AbsorbAt(p, k), lo, regions) && Detached(AbsorbAt(p, k), k)
  {
    AbsorbInv(p, lo, regions, k);
    AbsorbDetached(p, lo, regions, k);
  }

  lemma AbsorbDetached(p: Pool, lo: nat, regions: nat, k: nat)
    requires Inv(p, lo, regions) && Detached(p, k) && Mergeable(p.chain, k)
    ensures Detached(AbsorbAt(p, k), k)
  {
    var b, q := p.chain[k], AbsorbAt(p, k);
    assert q.chain[k] == b.(order := b.order + 1);
    if b.start in p.buckets[b.order + 1] { FiledUnderItsOrder(p, lo, regions, k, b.order + 1); }
  }

  lemma AbsorbInv(p: Pool, lo: nat, regions: nat, k: nat)
    requires Inv(p, lo, regions) && Detached(p, k) && Mergeable(p.chain, k)
    ensures Inv(AbsorbAt(p, k), lo, regions)
  {
    var b, next, q, hi := p.chain[k], p.chain[k + 1], AbsorbAt(p, k), lo + regions * REGION;
    var c := b.(order := b.order + 1);
    assert q.chain == Splice(p.chain, k, 2, [c]);
    assert next.start !in p.buckets[next.order] || next.inTree by {
      if next.start in p.buckets[next.order] { FiledUnderItsOrder(p, lo, regions, k + 1, next.order); }
    }
    assert Tiles([c], b.start, next.start + Size(next)) by { assert Size(c) == Size(b) + Size(next); }
    TilesSplice(p.chain, lo, hi, k, 2, [c]);
    AbsorbHeads(p.chain, lo, regions, k, c);
    AbsorbFiled(p.chain, lo, hi, p.buckets, k, c, q.buckets);
    AbsorbBooked(p.chain, p.used, k, c);
    AbsorbPages(p.chain, k, c);
    Assemble(q, lo, regions);
  }
}
