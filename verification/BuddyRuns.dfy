/** Allocation and freeing on one range, and what holds of every run of them. */
module BuddyRuns {
  import opened Prelude
  import opened BuddyPool
  import opened PowerOfTwo

  /** The order that is allocated for a request; orders from MAX_ORDER on are never tried. */
  function OrderFor(pages: nat): Option<nat>
  {
    if LeastOrder(pages, 0) < MAX_ORDER then Some(LeastOrder(pages, 0)) else None
  }

  /** How the request's order is found: rounding up, then comparing with each power below MAX_ORDER. */
  method RequestOrder(pages: nat) returns (order: Option<nat>)
    requires IsWord(pages)
    ensures order == OrderFor(pages)
  {
    var power := IsPowerOfTwo(pages);
    var rounded := pages;
    if !power {
      rounded := NextPowerOfTwo(pages);
    }
    RoundedIs(pages, rounded);
    for i := 0 to MAX_ORDER
      invariant forall j | 0 <= j < i :: rounded != Pow2(j)
    {
      if rounded == Pow2(i) {
        return Some(i);
      }
    }
    return None;
  }

  /** The first order from `o` on whose bucket is not empty. */
  function Search(buckets: seq<set<nat>>, o: nat): (r: Option<nat>)
    requires |buckets| == MAX_ORDER + 1
    ensures r.Some? ==> o <= r.value <= MAX_ORDER && buckets[r.value] != {}
    ensures r.Some? ==> forall j | o <= j < r.value :: buckets[j] == {}
    ensures r.None? ==> forall j | o <= j <= MAX_ORDER :: buckets[j] == {}
    decreases MAX_ORDER + 1 - o
  {
    if o > MAX_ORDER then None else if buckets[o] != {} then Some(o) else Search(buckets, o + 1)
  }

  /** Block `k` may be handed out for `pages`: it is in the bucket that the search stops at. Which block of
      the bucket that is, is the tree's choice. */
  predicate Offered(p: Pool, pages: nat, k: nat)
  {
    && |p.buckets| == MAX_ORDER + 1 && OrderFor(pages).Some? && k < |p.chain|
    && var found := Search(p.buckets, OrderFor(pages).value);
       found.Some? && p.chain[k].order == found.value && p.chain[k].start in p.buckets[found.value]
  }

  /** Splits block `k`, keeping the lower half, until it has order `o`. */
  function SplitDown(p: Pool, k: nat, o: nat): (q: Pool)
    requires k < |p.chain| && o <= p.chain[k].order <= MAX_ORDER < |p.buckets|
    ensures k < |q.chain| && q.chain[k] == p.chain[k].(order := o) && |q.buckets| == |p.buckets|
    decreases p.chain[k].order
  {
    if p.chain[k].order == o then p else SplitDown(SplitAt(p, k), k, o)
  }

  function Alloc(p: Pool, pages: nat, k: nat): Pool
    requires Offered(p, pages, k)
  {
    BookAt(SplitDown(TakeAt(p, k), k, OrderFor(pages).value), k)
  }

  /** `buddy_coalesce`: a block of MAX_ORDER goes into the tree; a block whose right neighbour can be merged
      absorbs it and goes into the tree; any other block stays out of the tree. */
  function Coalesce(p: Pool, k: nat): Pool
    requires k < |p.chain| && |p.buckets| == MAX_ORDER + 1 && p.chain[k].order <= MAX_ORDER
  {
    if p.chain[k].order == MAX_ORDER then FileAt(p, k)
    else if Mergeable(p.chain, k) then FileAt(AbsorbAt(p, k), k)
    else p
  }

  /** The block of the chain that starts at `address`. */
  function Find(chain: seq<Block>, address: nat): (r: Option<nat>)
    ensures r.Some? ==> r.value < |chain| && chain[r.value].start == address
    ensures r.None? ==> forall b | b in chain :: b.start != address
  {
    if chain == [] then None
    else if chain[0].start == address then Some(0)
    else
      var rest := Find(chain[1..], address);
      if rest.None? then None else Some(rest.value + 1)
  }

  /** `buddy_free` of an address in the used table; an address that is not there is left to the slabs. */
  ghost function Dealloc(p: Pool, address: nat): Pool
    requires Filed(p.chain, p.buckets)
  {
    var k := Find(p.chain, address);
    if address !in p.used || k.None? || p.chain[k.value].free then p
    else
      assert p.chain[k.value] in p.chain;
      Coalesce(UnbookAt(p, k.value), k.value)
  }

  lemma {:induction false} SplitDownKeeps(p: Pool, lo: nat, regions: nat, k: nat, o: nat)
    requires Inv(p, lo, regions) && Detached(p, k) && o <= p.chain[k].order
    ensures Inv(SplitDown(p, k, o), lo, regions) && Detached(SplitDown(p, k, o), k)
    decreases p.chain[k].order
  {
    if p.chain[k].order > o {
      SplitKeeps(p, lo, regions, k);
      SplitDownKeeps(SplitAt(p, k), lo, regions, k, o);
    }
  }

  lemma AllocKeeps(p: Pool, lo: nat, regions: nat, pages: nat, k: nat)
    requires Inv(p, lo, regions) && Offered(p, pages, k)
    ensures Inv(Alloc(p, pages, k), lo, regions)
  {
    FiledUnderItsOrder(p, lo, regions, k, p.chain[k].order);
    TakeKeeps(p, lo, regions, k);
    var o := OrderFor(pages).value;
    SplitDownKeeps(TakeAt(p, k), lo, regions, k, o);
    BookKeeps(SplitDown(TakeAt(p, k), k, o), lo, regions, k);
  }

  lemma CoalesceKeeps(p: Pool, lo: nat, regions: nat, k: nat)
    requires Inv(p, lo, regions) && Detached(p, k)
    ensures Inv(Coalesce(p, k), lo, regions)
  {
    if p.chain[k].order == MAX_ORDER {
      FileKeeps(p, lo, regions, k);
    } else if Mergeable(p.chain, k) {
      AbsorbKeeps(p, lo, regions, k);
      FileKeeps(AbsorbAt(p, k), lo, regions, k);
    }
  }

  lemma DeallocKeeps(p: Pool, lo: nat, regions: nat, address: nat)
    requires Inv(p, lo, regions)
    ensures Inv(Dealloc(p, address), lo, regions)
  {
    var k := Find(p.chain, address);
    if address in p.used && k.Some? && !p.chain[k.value].free {
      UnbookKeeps(p, lo, regions, k.value);
      CoalesceKeeps(UnbookAt(p, k.value), lo, regions, k.value);
    }
  }

  // ------------------------------------------------------------------ runs

  datatype Step = Allocate(pages: nat, k: nat) | Free(address: nat)

  /** One step; an allocation that the search does not offer is a panic and changes nothing. */
  ghost function Do(p: Pool, step: Step): Pool
    requires Filed(p.chain, p.buckets)
  {
    match step
    case Allocate(pages, k) => if Offered(p, pages, k) then Alloc(p, pages, k) else p
    case Free(address) => Dealloc(p, address)
  }

  ghost function Run(p: Pool, lo: nat, regions: nat, steps: seq<Step>): (r: Pool)
    requires Inv(p, lo, regions)
    ensures Inv(r, lo, regions)
    decreases |steps|
  {
    if steps == [] then p
    else
      DoKeeps(p, lo, regions, steps[0]);
      Run(Do(p, steps[0]), lo, regions, steps[1..])
  }

  lemma DoKeeps(p: Pool, lo: nat, regions: nat, step: Step)
    requires Inv(p, lo, regions)
    ensures Inv(Do(p, step), lo, regions)
  {
    match step
    case Allocate(pages, k) => if Offered(p, pages, k) { AllocKeeps(p, lo, regions, pages, k); }
    case Free(address) => DeallocKeeps(p, lo, regions, address);
  }

  /** The range after boot: one free block of MAX_ORDER per region, all in the tree, all but the last flagged. */
  function Boot(lo: nat, regions: nat): (p: Pool)
  {
    Pool(seq(regions, i requires 0 <= i < regions => Block(lo + i * REGION, MAX_ORDER, true, i + 1 < regions, false)),
         seq(MAX_ORDER + 1, o => if o == MAX_ORDER then set i: nat | i < regions :: lo + i * REGION else {}), {}, 0)
  }

  lemma {:induction false} AllFreeNoPages(chain: seq<Block>)
    requires forall b | b in chain :: b.free
    ensures UsedPages(chain) == 0
  {
    if chain != [] { AllFreeNoPages(chain[1..]); }
  }

  lemma BootInv(lo: nat, regions: nat)
    requires lo > 0 && regions > 0
    ensures Inv(Boot(lo, regions), lo, regions)
  {
    var p := Boot(lo, regions);
    RegionIsMaxOrder();
    forall s: nat | IsBoundary(s, lo, regions) ensures HasHead(p.chain, s) {
      var i := (s - lo) / REGION;
      assert p.chain[i].start == s && p.chain[i].first && p.chain[i] in p.chain;
    }
    forall o, s | 0 <= o <= MAX_ORDER && s in p.buckets[o] ensures FiledAt(p.chain, o, s) {
      var i: nat :| i < regions && s == lo + i * REGION;
      assert p.chain[i] in p.chain;
    }
    AllFreeNoPages(p.chain);
  }

  /** In every run the allocated blocks are pairwise disjoint, and the page counter is the sum of their sizes. */
  lemma LiveBlocksDisjoint(lo: nat, regions: nat, steps: seq<Step>, i: nat, j: nat)
    requires lo > 0 && regions > 0
    ensures Inv(Boot(lo, regions), lo, regions)
    ensures var r := Run(Boot(lo, regions), lo, regions, steps);
      && r.total == UsedPages(r.chain)
      && (i < j < |r.chain| ==> r.chain[i].start + Size(r.chain[i]) <= r.chain[j].start)
  {
    BootInv(lo, regions);
    var r := Run(Boot(lo, regions), lo, regions, steps);
    if i < j < |r.chain| { StartsIncrease(r.chain, lo, lo + regions * REGION, i, j); }
  }

  /** What an allocation returns: a block that starts where the offered block starts, holds the request, and
      would not hold it at any smaller order; it was free, and is now used and in the table. */
  lemma AllocReturns(p: Pool, lo: nat, regions: nat, pages: nat, k: nat)
    requires Inv(p, lo, regions) && Offered(p, pages, k)
    ensures var q := Alloc(p, pages, k);
      && k < |q.chain| && q.chain[k].start == p.chain[k].start && !q.chain[k].free && q.chain[k].start in q.used
      && pages <= Size(q.chain[k]) && (q.chain[k].order > 0 ==> Pow2(q.chain[k].order - 1) < pages)
      && q.total == p.total + Size(q.chain[k]) && p.chain[k].start !in p.used
  {
    FiledUnderItsOrder(p, lo, regions, k, p.chain[k].order);
    FreeIsNotBooked(p.chain, lo, lo + regions * REGION, p.used, k);
    SplitDownTotal(TakeAt(p, k), k, OrderFor(pages).value);
  }

  lemma {:induction false} SplitDownTotal(p: Pool, k: nat, o: nat)
    requires k < |p.chain| && o <= p.chain[k].order <= MAX_ORDER < |p.buckets|
    ensures SplitDown(p, k, o).total == p.total && SplitDown(p, k, o).used == p.used
    decreases p.chain[k].order
  {
    if p.chain[k].order > o { SplitDownTotal(SplitAt(p, k), k, o); }
  }

  /** Requests are served up to half a region: beyond 512 pages no order is tried. */
  lemma LargestRequest(pages: nat)
    ensures OrderFor(pages).Some? <==> pages <= 512
  {
    assert Pow2(9) == 512 by { assert Pow2(4) == 16; }
    var o := LeastOrder(pages, 0);
    if o < MAX_ORDER { Pow2Monotone(o, 9); }
    if o >= MAX_ORDER { Pow2Monotone(9, o - 1); }
  }

  // ------------------------------------------------------------------ regions

  lemma SubchainTiles(chain: seq<Block>, lo: nat, hi: nat, a: nat, b: nat)
    requires Tiles(chain, lo, hi) && a < b <= |chain|
    ensures Tiles(chain[a..b], chain[a].start, if b < |chain| then chain[b].start else hi)
  {
    forall i | 0 <= i < b - a - 1 ensures chain[a..b][i + 1].start == chain[a..b][i].start + Size(chain[a..b][i]) {
      assert chain[a + i + 1].start == chain[a + i].start + Size(chain[a + i]);
    }
    if b < |chain| { assert chain[b - 1 + 1].start == chain[b - 1].start + Size(chain[b - 1]); }
  }

  lemma {:induction false} HeadIndex(chain: seq<Block>, s: nat) returns (i: nat)
    requires HasHead(chain, s)
    ensures i < |chain| && chain[i].first && chain[i].start == s
  {
    var b := HeadOf(chain, s);
    i :| 0 <= i < |chain| && chain[i] == b;
  }

  /** Where the region that starts at the flagged boundary `s` ends: at the next flagged boundary, or else at
      the end of the range. */
  ghost function RegionEnd(s: nat, lo: nat, regions: nat): nat
  {
    if IsBoundary(s + REGION, lo, regions) then s + REGION else lo + regions * REGION
  }

  /** The blocks `a .. b` of the chain are those from the flagged head at `s` up to the next one. */
  ghost predicate IsRegion(chain: seq<Block>, s: nat, end: nat, a: nat, b: nat)
  {
    && a < b <= |chain| && chain[a].first && chain[a].start == s
    && (forall i | a < i < b :: !chain[i].first)
    && Tiles(chain[a..b], s, end)
  }

  lemma RegionTiled(chain: seq<Block>, lo: nat, regions: nat, s: nat) returns (a: nat, b: nat)
    requires Tiles(chain, lo, lo + regions * REGION) && Heads(chain, lo, regions) && IsBoundary(s, lo, regions)
    ensures IsRegion(chain, s, RegionEnd(s, lo, regions), a, b)
  {
    var hi := lo + regions * REGION;
    assert HasHead(chain, s);
    a := HeadIndex(chain, s);
    b := |chain|;
    if IsBoundary(s + REGION, lo, regions) {
      assert HasHead(chain, s + REGION);
      b := HeadIndex(chain, s + REGION);
      if b <= a { StartOrder(chain, lo, hi, b, a); }
    }
    SubchainTiles(chain, lo, hi, a, b);
    forall i | a < i < b ensures !chain[i].first {
      StartsIncrease(chain, lo, hi, a, i);
      if b < |chain| { StartsIncrease(chain, lo, hi, i, b); } else { LastStart(chain, lo, hi, i); }
      NoBoundaryBetween(chain[i].start, s, lo, regions);
      assert chain[i] in chain;
    }
  }

  lemma LastStart(chain: seq<Block>, lo: nat, hi: nat, i: nat)
    requires Tiles(chain, lo, hi) && i < |chain|
    ensures chain[i].start < hi
  {
    StartOrder(chain, lo, hi, i, |chain| - 1);
  }

  /** In every run, the chain between two neighbouring flagged heads tiles exactly one region, and the chain
      from the last flagged head on tiles the last two. */
  lemma RegionsTiled(lo: nat, regions: nat, steps: seq<Step>, s: nat) returns (a: nat, b: nat)
    requires lo > 0 && regions > 0 && IsBoundary(s, lo, regions)
    ensures Inv(Boot(lo, regions), lo, regions)
    ensures IsRegion(Run(Boot(lo, regions), lo, regions, steps).chain, s, RegionEnd(s, lo, regions), a, b)
    ensures RegionEnd(s, lo, regions) == if s + 2 * REGION < lo + regions * REGION then s + REGION else s + 2 * REGION
  {
    RegionEndIs(s, lo, regions);
    BootInv(lo, regions);
    a, b := RegionTiled(Run(Boot(lo, regions), lo, regions, steps).chain, lo, regions, s);
  }

  lemma RegionEndIs(s: nat, lo: nat, regions: nat)
    requires IsBoundary(s, lo, regions)
    ensures RegionEnd(s, lo, regions) == if s + 2 * REGION < lo + regions * REGION then s + REGION else s + 2 * REGION
  {
    var i := (s - lo) / 1024;
    assert s == lo + 1024 * i && i + 1 < regions;
    if s + 2048 < lo + 1024 * regions {
      assert (s + 1024 - lo) % 1024 == 0;
    } else {
      assert regions == i + 2;
    }
  }

  lemma StartOrder(chain: seq<Block>, lo: nat, hi: nat, i: nat, j: nat)
    requires Tiles(chain, lo, hi) && i <= j < |chain|
    ensures chain[i].start <= chain[j].start
  {
    if i < j { StartsIncrease(chain, lo, hi, i, j); }
  }

  lemma NoBoundaryBetween(x: nat, s: nat, lo: nat, regions: nat)
    requires IsBoundary(s, lo, regions) && s < x
    requires x < (if IsBoundary(s + REGION, lo, regions) then s + REGION else lo + regions * REGION)
    ensures !IsBoundary(x, lo, regions)
  {
  }

  // ------------------------------------------------------------------ what freeing does not do

  ghost predicate InSomeBucket(buckets: seq<set<nat>>, s: nat)
  {
    exists o | 0 <= o < |buckets| :: s in buckets[o]
  }

  lemma CoalesceFilesExactly(q: Pool, k: nat)
    requires Detached(q, k) && |q.buckets| == MAX_ORDER + 1 && !InSomeBucket(q.buckets, q.chain[k].start)
    ensures InSomeBucket(Coalesce(q, k).buckets, q.chain[k].start) <==>
      q.chain[k].order == MAX_ORDER || Mergeable(q.chain, k)
  {
    var s := q.chain[k].start;
    if q.chain[k].order == MAX_ORDER {
      assert s in Coalesce(q, k).buckets[MAX_ORDER];
    } else if Mergeable(q.chain, k) {
      var m := AbsorbAt(q, k);
      assert m.chain[k].start == s && m.chain[k].order == q.chain[k].order + 1;
      assert s in Coalesce(q, k).buckets[q.chain[k].order + 1];
    }
  }

  /** Right after the free, a search finds the block exactly if it has MAX_ORDER or has merged with its right
      neighbour; otherwise it is free but in no bucket. */
  lemma FreedIsFiledExactly(p: Pool, lo: nat, regions: nat, k: nat)
    requires Inv(p, lo, regions) && k < |p.chain| && !p.chain[k].free
    ensures InSomeBucket(Dealloc(p, p.chain[k].start).buckets, p.chain[k].start)
      <==> p.chain[k].order == MAX_ORDER || Mergeable(UnbookAt(p, k).chain, k)
  {
    var q := UnbookAt(p, k);
    assert p.chain[k] in p.chain;
    FindsStart(p.chain, lo, lo + regions * REGION, k);
    UsedIsNotFiled(p, lo, regions, k);
    UnbookKeeps(p, lo, regions, k);
    CoalesceFilesExactly(q, k);
  }

  lemma FindsStart(chain: seq<Block>, lo: nat, hi: nat, k: nat)
    requires Tiles(chain, lo, hi) && k < |chain|
    ensures Find(chain, chain[k].start) == Some(k)
  {
    assert chain[k] in chain;
    var f := Find(chain, chain[k].start);
    if f.value < k { StartsIncrease(chain, lo, hi, f.value, k); }
    if k < f.value { StartsIncrease(chain, lo, hi, k, f.value); }
  }

  lemma UsedStart(p: Pool, lo: nat, regions: nat, k: nat)
    requires Inv(p, lo, regions) && k < |p.chain| && p.chain[k].start in p.used
    ensures !p.chain[k].free && Find(p.chain, p.chain[k].start) == Some(k)
  {
    var hi := lo + regions * REGION;
    FindsStart(p.chain, lo, hi, k);
    assert HasUsed(p.chain, p.chain[k].start);
    var b :| b in p.chain && b.start == p.chain[k].start && !b.free;
    StartIsUnique(p.chain, lo, hi, k, b);
  }
}
