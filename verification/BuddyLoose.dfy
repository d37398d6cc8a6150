/** Free blocks that are in no bucket: what becomes of them over a run. */
module BuddyLoose {
  import opened Prelude
  import opened BuddyPool
  import opened BuddyRuns

  /** A free block below MAX_ORDER that is not in the tree. */
  ghost predicate Loose(p: Pool, b: Block)
  {
    b in p.chain && b.free && !b.inTree && b.order < MAX_ORDER
  }

  /** The step frees a used block of the order of `b` directly to its left, and `b` does not begin a region. */
  ghost predicate FreesLeftOf(p: Pool, step: Step, b: Block)
  {
    step.Free? && !b.first && exists j | 0 <= j < |p.chain| - 1 ::
      IsLeft(p.chain, j, b) && p.chain[j].start == step.address
  }

  predicate IsLeft(chain: seq<Block>, j: nat, b: Block)
  {
    j + 1 < |chain| && chain[j + 1] == b && !chain[j].free && chain[j].order == b.order
  }

  /** A loose block is in no bucket, so no search offers it. */
  lemma LooseIsNotFound(p: Pool, lo: nat, regions: nat, k: nat)
    requires Inv(p, lo, regions) && k < |p.chain| && Loose(p, p.chain[k])
    ensures !InSomeBucket(p.buckets, p.chain[k].start) && forall pages :: !Offered(p, pages, k)
  {
    var b := p.chain[k];
    if o :| 0 <= o < |p.buckets| && b.start in p.buckets[o] {
      var c := FiledBlock(p.chain, o, b.start);
      StartIsUnique(p.chain, lo, lo + regions * REGION, k, c);
    }
  }

  // ------------------------------------------------------------------ one step

  /** Blocks with another start than those replaced stay in the chain. */
  lemma SpareSplice(chain: seq<Block>, k: nat, n: nat, blocks: seq<Block>, b: Block)
    requires k + n <= |chain| && b in chain && forall i | k <= i < k + n :: chain[i].start != b.start
    ensures b in Splice(chain, k, n, blocks)
  {
    SpliceMembers(chain, k, n, blocks, b);
  }

  lemma {:induction false} SplitDownSpares(p: Pool, k: nat, o: nat, b: Block)
    requires k < |p.chain| && o <= p.chain[k].order <= MAX_ORDER < |p.buckets| && b in p.chain &&
      b.start != p.chain[k].start
    ensures b in SplitDown(p, k, o).chain
    decreases p.chain[k].order
  {
    if p.chain[k].order > o {
      SpareSplice(p.chain, k, 1, [Lower(p.chain[k]), Upper(p.chain[k])], b);
      SplitDownSpares(SplitAt(p, k), k, o, b);
    }
  }

  /** An allocation leaves every other block in the chain. */
  lemma AllocSpares(p: Pool, pages: nat, k: nat, b: Block)
    requires Offered(p, pages, k) && b in p.chain && b.start != p.chain[k].start
    ensures b in Alloc(p, pages, k).chain
  {
    var q, o := TakeAt(p, k), OrderFor(pages).value;
    SpareSplice(p.chain, k, 1, [p.chain[k].(inTree := false)], b);
    SplitDownSpares(q, k, o, b);
    var r := SplitDown(q, k, o);
    SpareSplice(r.chain, k, 1, [r.chain[k].(free := false)], b);
  }

  /** Merging or filing block `k` leaves every other block in the chain, but for the one that is merged. */
  lemma CoalesceSpares(p: Pool, k: nat, b: Block)
    requires k < |p.chain| && |p.buckets| == MAX_ORDER + 1 && p.chain[k].order <= MAX_ORDER
    requires b in p.chain && b.start != p.chain[k].start && (Mergeable(p.chain, k) ==> b.start != p.chain[k + 1].start)
    ensures b in Coalesce(p, k).chain
  {
    if p.chain[k].order == MAX_ORDER {
      SpareSplice(p.chain, k, 1, [p.chain[k].(inTree := true)], b);
    } else if Mergeable(p.chain, k) {
      var q := AbsorbAt(p, k);
      SpareSplice(p.chain, k, 2, [p.chain[k].(order := p.chain[k].order + 1)], b);
      SpareSplice(q.chain, k, 1, [q.chain[k].(inTree := true)], b);
    }
  }

  /** The block is now the upper half of a block in the tree. */
  ghost predicate Absorbed(p: Pool, b: Block)
  {
    exists c | c in p.chain :: UpperHalfOf(p, b, c)
  }

  ghost predicate UpperHalfOf(p: Pool, b: Block, c: Block)
  {
    c.inTree && c.order < |p.buckets| && c.start in p.buckets[c.order] && c.order == b.order + 1 &&
      c.start + Size(b) == b.start
  }

  lemma MergeAbsorbs(p: Pool, lo: nat, hi: nat, k: nat)
    requires k < |p.chain| && |p.buckets| == MAX_ORDER + 1 && Mergeable(p.chain, k) && Tiles(p.chain, lo, hi)
    ensures Absorbed(Coalesce(p, k), p.chain[k + 1])
  {
    var q := Coalesce(p, k);
    assert p.chain[k + 1].start == p.chain[k].start + Size(p.chain[k]);
    assert q.chain[k] in q.chain && UpperHalfOf(q, p.chain[k + 1], q.chain[k]);
  }

  /** The upper half of a block is no block of the chain. */
  lemma AbsorbedIsGone(p: Pool, lo: nat, hi: nat, b: Block)
    requires Tiles(p.chain, lo, hi) && Absorbed(p, b)
    ensures b !in p.chain
  {
    var c :| c in p.chain && UpperHalfOf(p, b, c);
    var k :| 0 <= k < |p.chain| && p.chain[k] == c;
    if i :| 0 <= i < |p.chain| && p.chain[i] == b {
      if i < k { StartsIncrease(p.chain, lo, hi, i, k); }
      if k < i { StartsIncrease(p.chain, lo, hi, k, i); }
    }
  }

  lemma StartsDiffer(chain: seq<Block>, lo: nat, hi: nat, i: nat, j: nat)
    requires Tiles(chain, lo, hi) && i < |chain| && j < |chain| && i != j
    ensures chain[i].start != chain[j].start
  {
    if i < j { StartsIncrease(chain, lo, hi, i, j); } else { StartsIncrease(chain, lo, hi, j, i); }
  }

  /** Freeing a used block is unbooking it, which leaves the other blocks as they are, and then coalescing it. */
  lemma DeallocIs(p: Pool, lo: nat, regions: nat, j: nat) returns (u: Pool)
    requires Inv(p, lo, regions) && j < |p.chain| && !p.chain[j].free
    ensures Inv(u, lo, regions) && Detached(u, j) && Dealloc(p, p.chain[j].start) == Coalesce(u, j)
    ensures u.chain == p.chain[j := p.chain[j].(free := true, inTree := false)]
  {
    u := UnbookAt(p, j);
    UnbookKeeps(p, lo, regions, j);
    SpliceOne(p.chain, j, p.chain[j].(free := true, inTree := false));
    DeallocFinds(p, lo, regions, j);
  }

  lemma SpliceOne(chain: seq<Block>, k: nat, b: Block)
    requires k < |chain|
    ensures Splice(chain, k, 1, [b]) == chain[k := b]
  {
  }

  lemma DeallocFinds(p: Pool, lo: nat, regions: nat, j: nat)
    requires Inv(p, lo, regions) && j < |p.chain| && !p.chain[j].free
    ensures p.chain[j].order <= MAX_ORDER && Dealloc(p, p.chain[j].start) == Coalesce(UnbookAt(p, j), j)
  {
    FindsStart(p.chain, lo, lo + regions * REGION, j);
    assert p.chain[j] in p.chain;
  }

  /** A freed block that neither has MAX_ORDER nor merges at once is loose. */
  lemma FreedIsLooseExactly(p: Pool, lo: nat, regions: nat, j: nat)
    requires Inv(p, lo, regions) && j < |p.chain| && !p.chain[j].free
    ensures Loose(Dealloc(p, p.chain[j].start), p.chain[j].(free := true, inTree := false))
      <==> p.chain[j].order < MAX_ORDER && !Mergeable(UnbookAt(p, j).chain, j)
  {
    var b, hi := p.chain[j].(free := true, inTree := false), lo + regions * REGION;
    var u := DeallocIs(p, lo, regions, j);
    SpliceOne(p.chain, j, b);
    if Mergeable(u.chain, j) {
      CoalesceKeeps(u, lo, regions, j);
      var q := Coalesce(u, j);
      assert q.chain[j].start == b.start && q.chain[j].order == b.order + 1;
      if b in q.chain { StartIsUnique(q.chain, lo, hi, j, b); }
    }
  }

  lemma FreeStep(p: Pool, lo: nat, regions: nat, j: nat, k: nat)
    requires Inv(p, lo, regions) && j < |p.chain| && !p.chain[j].free && k < |p.chain| && Loose(p, p.chain[k])
    ensures var q := Dealloc(p, p.chain[j].start);
      if k == j + 1 && p.chain[j].order == p.chain[k].order && !p.chain[k].first
      then Absorbed(q, p.chain[k]) else Loose(q, p.chain[k])
  {
    var u := DeallocIs(p, lo, regions, j);
    var hi := lo + regions * REGION;
    assert u.chain[k] == p.chain[k];
    if k == j + 1 && p.chain[j].order == p.chain[k].order && !p.chain[k].first {
      assert Mergeable(u.chain, j);
      MergeAbsorbs(u, lo, hi, j);
    } else {
      StartsDiffer(u.chain, lo, hi, j, k);
      if j + 1 != k && j + 1 < |p.chain| { StartsDiffer(u.chain, lo, hi, j + 1, k); }
      CoalesceSpares(u, j, u.chain[k]);
    }
  }

  /** A loose block stays loose through a step if and only if the step does not free a block of its order directly to
      its left; such a step makes it the upper half of a block in the tree. */
  lemma LooseStep(p: Pool, lo: nat, regions: nat, step: Step, b: Block)
    requires Inv(p, lo, regions) && Loose(p, b)
    ensures Loose(Do(p, step), b) <==> !FreesLeftOf(p, step, b)
    ensures FreesLeftOf(p, step, b) ==> Absorbed(Do(p, step), b)
  {
    var k :| 0 <= k < |p.chain| && p.chain[k] == b;
    match step
    case Allocate(pages, j) =>
      if Offered(p, pages, j) {
        LooseIsNotFound(p, lo, regions, k);
        StartsDiffer(p.chain, lo, lo + regions * REGION, j, k);
        AllocSpares(p, pages, j, b);
      }
    case Free(address) =>
      if address in p.used {
        var j := UsedIndex(p, lo, regions, address);
        FreeStep(p, lo, regions, j, k);
        LeftIs(p, lo, regions, j, k);
        if FreesLeftOf(p, step, b) {
          DeallocKeeps(p, lo, regions, address);
          AbsorbedIsGone(Do(p, step), lo, lo + regions * REGION, b);
        }
      } else {
        NotUsedIsNotLeft(p, address, b);
      }
  }

  lemma UsedIndex(p: Pool, lo: nat, regions: nat, address: nat) returns (j: nat)
    requires Inv(p, lo, regions) && address in p.used
    ensures j < |p.chain| && !p.chain[j].free && p.chain[j].start == address
  {
    assert HasUsed(p.chain, address);
    var c :| c in p.chain && c.start == address && !c.free;
    j :| 0 <= j < |p.chain| && p.chain[j] == c;
  }

  lemma NotUsedIsNotLeft(p: Pool, address: nat, b: Block)
    requires Booked(p.chain, p.used) && address !in p.used
    ensures !FreesLeftOf(p, Free(address), b)
  {
    assert forall j | 0 <= j < |p.chain| :: p.chain[j] in p.chain;
  }

  lemma LeftIs(p: Pool, lo: nat, regions: nat, j: nat, k: nat)
    requires Inv(p, lo, regions) && j < |p.chain| && !p.chain[j].free && k < |p.chain|
    ensures FreesLeftOf(p, Free(p.chain[j].start), p.chain[k])
      <==> k == j + 1 && p.chain[j].order == p.chain[k].order && !p.chain[k].first
  {
    var hi := lo + regions * REGION;
    if k == j + 1 && p.chain[j].order == p.chain[k].order && !p.chain[k].first {
      assert IsLeft(p.chain, j, p.chain[k]);
    }
    if i :| 0 <= i < |p.chain| - 1 && IsLeft(p.chain, i, p.chain[k]) && p.chain[i].start == p.chain[j].start {
      if i != j { StartsDiffer(p.chain, lo, hi, i, j); }
      if i + 1 != k { StartsDiffer(p.chain, lo, hi, i + 1, k); }
    }
  }

  // ------------------------------------------------------------------ runs

  /** No step of the run frees a block of the order of `b` directly to its left. */
  ghost predicate LeftStaysUsed(p: Pool, lo: nat, regions: nat, steps: seq<Step>, b: Block)
    requires Inv(p, lo, regions)
    decreases |steps|
  {
    steps == [] || (DoKeeps(p, lo, regions, steps[0]);
                    !FreesLeftOf(p, steps[0], b) && LeftStaysUsed(Do(p, steps[0]), lo, regions, steps[1..], b))
  }

  /** The block is loose at every point of the run. */
  ghost predicate StaysLoose(p: Pool, lo: nat, regions: nat, steps: seq<Step>, b: Block)
    requires Inv(p, lo, regions)
    decreases |steps|
  {
    && Loose(p, b)
    && (steps == [] || (DoKeeps(p, lo, regions, steps[0]);
                        StaysLoose(Do(p, steps[0]), lo, regions, steps[1..], b)))
  }

  /** A loose block stays loose over a run if and only if no step frees a block of its order directly to its left. */
  lemma {:induction false} LooseUntilLeftIsFreed(p: Pool, lo: nat, regions: nat, steps: seq<Step>, b: Block)
    requires Inv(p, lo, regions) && Loose(p, b)
    ensures StaysLoose(p, lo, regions, steps, b) <==> LeftStaysUsed(p, lo, regions, steps, b)
    ensures LeftStaysUsed(p, lo, regions, steps, b) ==> Loose(Run(p, lo, regions, steps), b)
    decreases |steps|
  {
    if steps != [] {
      LooseStep(p, lo, regions, steps[0], b);
      DoKeeps(p, lo, regions, steps[0]);
      if Loose(Do(p, steps[0]), b) {
        LooseUntilLeftIsFreed(Do(p, steps[0]), lo, regions, steps[1..], b);
      }
    }
  }
}
