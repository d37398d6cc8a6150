/** Which region boundaries no block ever lies across: exactly those that carry the first-block flag. */
module BuddyBoundary {
  import opened Prelude
  import opened BuddyPool
  import opened BuddyRuns
  import BuddyLimits
  import BuddyLoose

  // ------------------------------------------------------------------ more regions in front

  function StartsOf(before: seq<Block>): set<nat>
  {
    set b | b in before :: b.start
  }

  function Widened(buckets: seq<set<nat>>, more: set<nat>): seq<set<nat>>
    requires |buckets| == MAX_ORDER + 1
  {
    buckets[MAX_ORDER := buckets[MAX_ORDER] + more]
  }

  /** The range with the free blocks `before` of MAX_ORDER in front. */
  function Prefixed(before: seq<Block>, p: Pool): Pool
    requires |p.buckets| == MAX_ORDER + 1
  {
    Pool(before + p.chain, Widened(p.buckets, StartsOf(before)), p.used, p.total)
  }

  /** The step with its block index counted from the front of the longer chain. */
  function Shifted(step: Step, n: nat): Step
  {
    match step
    case Allocate(pages, k) => Allocate(pages, n + k)
    case Free(address) => Free(address)
  }

  /** The step does something: the block is offered, or the address is in use. */
  ghost predicate Effective(p: Pool, step: Step)
  {
    match step
    case Allocate(pages, k) => Offered(p, pages, k)
    case Free(address) => address in p.used
  }

  ghost predicate InFront(before: seq<Block>, base: nat)
  {
    forall b | b in before :: b.start < base
  }

  lemma SplicePrefixed(before: seq<Block>, chain: seq<Block>, k: nat, n: nat, blocks: seq<Block>)
    requires k + n <= |chain|
    ensures Splice(before + chain, |before| + k, n, blocks) == before + Splice(chain, k, n, blocks)
  {
    assert (before + chain)[..|before| + k] == before + chain[..k];
    assert (before + chain)[|before| + k + n..] == chain[k + n..];
  }

  lemma WidenedAdd(buckets: seq<set<nat>>, more: set<nat>, o: nat, s: nat)
    requires |buckets| == MAX_ORDER + 1 && o <= MAX_ORDER
    ensures Widened(buckets[o := buckets[o] + {s}], more)
      == Widened(buckets, more)[o := Widened(buckets, more)[o] + {s}]
  {
    if o == MAX_ORDER {
      assert buckets[o] + {s} + more == buckets[o] + more + {s};
    }
  }

  lemma WidenedRemove(buckets: seq<set<nat>>, more: set<nat>, o: nat, s: nat)
    requires |buckets| == MAX_ORDER + 1 && o <= MAX_ORDER && s !in more
    ensures Widened(buckets[o := buckets[o] - {s}], more)
      == Widened(buckets, more)[o := Widened(buckets, more)[o] - {s}]
  {
    if o == MAX_ORDER {
      assert (buckets[o] - {s}) + more == (buckets[o] + more) - {s};
    }
  }

  ghost predicate Fits(before: seq<Block>, p: Pool, k: nat)
  {
    && |p.buckets| == MAX_ORDER + 1 && k < |p.chain| && p.chain[k].order <= MAX_ORDER
    && InFront(before, p.chain[k].start)
  }

  lemma TakePrefixed(before: seq<Block>, p: Pool, k: nat)
    requires Fits(before, p, k)
    ensures Prefixed(before, TakeAt(p, k)) == TakeAt(Prefixed(before, p), |before| + k)
  {
    var b := p.chain[k];
    SplicePrefixed(before, p.chain, k, 1, [b.(inTree := false)]);
    WidenedRemove(p.buckets, StartsOf(before), b.order, b.start);
  }

  lemma FilePrefixed(before: seq<Block>, p: Pool, k: nat)
    requires |p.buckets| == MAX_ORDER + 1 && k < |p.chain| && p.chain[k].order <= MAX_ORDER
    ensures Prefixed(before, FileAt(p, k)) == FileAt(Prefixed(before, p), |before| + k)
  {
    var b := p.chain[k];
    SplicePrefixed(before, p.chain, k, 1, [b.(inTree := true)]);
    WidenedAdd(p.buckets, StartsOf(before), b.order, b.start);
  }

  lemma SplitPrefixed(before: seq<Block>, p: Pool, k: nat)
    requires |p.buckets| == MAX_ORDER + 1 && k < |p.chain| && 0 < p.chain[k].order <= MAX_ORDER
    ensures Prefixed(before, SplitAt(p, k)) == SplitAt(Prefixed(before, p), |before| + k)
  {
    var b := p.chain[k];
    SplicePrefixed(before, p.chain, k, 1, [Lower(b), Upper(b)]);
    WidenedAdd(p.buckets, StartsOf(before), Upper(b).order, Upper(b).start);
  }

  lemma {:induction false} SplitDownPrefixed(before: seq<Block>, p: Pool, k: nat, o: nat)
    requires |p.buckets| == MAX_ORDER + 1 && k < |p.chain| && o <= p.chain[k].order <= MAX_ORDER
    ensures Prefixed(before, SplitDown(p, k, o)) == SplitDown(Prefixed(before, p), |before| + k, o)
    decreases p.chain[k].order
  {
    if p.chain[k].order > o {
      SplitPrefixed(before, p, k);
      SplitDownPrefixed(before, SplitAt(p, k), k, o);
    }
  }

  lemma MarkPrefixed(before: seq<Block>, p: Pool, k: nat)
    requires |p.buckets| == MAX_ORDER + 1 && k < |p.chain|
    ensures Prefixed(before, BookAt(p, k)) == BookAt(Prefixed(before, p), |before| + k)
    ensures Prefixed(before, UnbookAt(p, k)) == UnbookAt(Prefixed(before, p), |before| + k)
  {
    var b := p.chain[k];
    SplicePrefixed(before, p.chain, k, 1, [b.(free := false)]);
    SplicePrefixed(before, p.chain, k, 1, [b.(free := true, inTree := false)]);
  }

  lemma AbsorbPrefixed(before: seq<Block>, p: Pool, k: nat)
    requires |p.buckets| == MAX_ORDER + 1 && k < |p.chain| && Fits(before, p, k + 1)
    ensures Prefixed(before, AbsorbAt(p, k)) == AbsorbAt(Prefixed(before, p), |before| + k)
  {
    var b, next := p.chain[k], p.chain[k + 1];
    SplicePrefixed(before, p.chain, k, 2, [b.(order := b.order + 1)]);
    WidenedRemove(p.buckets, StartsOf(before), next.order, next.start);
  }

  lemma {:induction false} SearchWidened(buckets: seq<set<nat>>, more: set<nat>, o: nat)
    requires |buckets| == MAX_ORDER + 1 && Search(buckets, o).Some?
    ensures Search(Widened(buckets, more), o) == Search(buckets, o)
    decreases MAX_ORDER + 1 - o
  {
    if buckets[o] == {} {
      SearchWidened(buckets, more, o + 1);
    }
  }

  lemma AllocPrefixed(before: seq<Block>, p: Pool, pages: nat, k: nat)
    requires Offered(p, pages, k) && Fits(before, p, k)
    ensures Offered(Prefixed(before, p), pages, |before| + k) && |Alloc(p, pages, k).buckets| == MAX_ORDER + 1
    ensures Alloc(Prefixed(before, p), pages, |before| + k) == Prefixed(before, Alloc(p, pages, k))
  {
    var o := OrderFor(pages).value;
    SearchWidened(p.buckets, StartsOf(before), o);
    TakePrefixed(before, p, k);
    var t := TakeAt(p, k);
    assert t.chain[k].order == p.chain[k].order;
    SplitDownPrefixed(before, t, k, o);
    MarkPrefixed(before, SplitDown(t, k, o), k);
  }

  lemma CoalescePrefixed(before: seq<Block>, p: Pool, k: nat)
    requires Fits(before, p, k) && (k + 1 < |p.chain| ==> InFront(before, p.chain[k + 1].start))
    ensures |Coalesce(p, k).buckets| == MAX_ORDER + 1
    ensures Coalesce(Prefixed(before, p), |before| + k) == Prefixed(before, Coalesce(p, k))
  {
    if p.chain[k].order == MAX_ORDER {
      FilePrefixed(before, p, k);
    } else if Mergeable(p.chain, k) {
      AbsorbPrefixed(before, p, k);
      FilePrefixed(before, AbsorbAt(p, k), k);
    }
  }

  lemma StartsFrom(before: seq<Block>, chain: seq<Block>, base: nat, hi: nat, k: nat)
    requires Tiles(chain, base, hi) && k < |chain| && InFront(before, base)
    ensures InFront(before, chain[k].start)
  {
    StartOrder(chain, base, hi, 0, k);
  }

  /** Freeing block `k` of the shorter chain on either chain. */
  lemma DeallocPrefixed(before: seq<Block>, p: Pool, base: nat, n: nat, lo: nat, regions: nat, k: nat) returns (q: Pool)
    requires Inv(p, base, n) && InFront(before, base) && k < |p.chain| && !p.chain[k].free
    requires Inv(Prefixed(before, p), lo, regions)
    ensures |q.buckets| == MAX_ORDER + 1 && Dealloc(p, p.chain[k].start) == q
    ensures Dealloc(Prefixed(before, p), p.chain[k].start) == Prefixed(before, q)
  {
    q := Coalesce(UnbookAt(p, k), k);
    BuddyLoose.DeallocFinds(p, base, n, k);
    StartsFrom(before, p.chain, base, base + n * REGION, k);
    if k + 1 < |p.chain| { StartsFrom(before, p.chain, base, base + n * REGION, k + 1); }
    ReturnPrefixed(before, p, k);
    FoundPrefixed(before, p, lo, regions, k);
  }

  lemma FoundPrefixed(before: seq<Block>, p: Pool, lo: nat, regions: nat, k: nat)
    requires |p.buckets| == MAX_ORDER + 1 && k < |p.chain| && !p.chain[k].free && Inv(Prefixed(before, p), lo, regions)
    ensures p.chain[k].order <= MAX_ORDER
    ensures Dealloc(Prefixed(before, p), p.chain[k].start)
      == Coalesce(UnbookAt(Prefixed(before, p), |before| + k), |before| + k)
  {
    var r := Prefixed(before, p);
    assert r.chain[|before| + k] == p.chain[k];
    BuddyLoose.DeallocFinds(r, lo, regions, |before| + k);
  }

  lemma ReturnPrefixed(before: seq<Block>, p: Pool, k: nat)
    requires Fits(before, p, k) && (k + 1 < |p.chain| ==> InFront(before, p.chain[k + 1].start))
    ensures |Coalesce(UnbookAt(p, k), k).buckets| == MAX_ORDER + 1
    ensures Coalesce(UnbookAt(Prefixed(before, p), |before| + k), |before| + k)
      == Prefixed(before, Coalesce(UnbookAt(p, k), k))
  {
    MarkPrefixed(before, p, k);
    BuddyLoose.SpliceOne(p.chain, k, p.chain[k].(free := true, inTree := false));
    CoalescePrefixed(before, UnbookAt(p, k), k);
  }

  /** A step on the shorter chain, done on the longer one. */
  lemma DoPrefixed(before: seq<Block>, p: Pool, base: nat, n: nat, lo: nat, regions: nat, step: Step)
    requires Inv(p, base, n) && InFront(before, base) && Effective(p, step) && Inv(Prefixed(before, p), lo, regions)
    ensures |Do(p, step).buckets| == MAX_ORDER + 1
    ensures Do(Prefixed(before, p), Shifted(step, |before|)) == Prefixed(before, Do(p, step))
  {
    match step
    case Allocate(pages, k) =>
      assert p.chain[k] in p.chain;
      StartsFrom(before, p.chain, base, base + n * REGION, k);
      AllocPrefixed(before, p, pages, k);
    case Free(address) =>
      var k := BuddyLoose.UsedIndex(p, base, n, address);
      var q := DeallocPrefixed(before, p, base, n, lo, regions, k);
  }

  // ------------------------------------------------------------------ runs

  ghost predicate AllEffective(p: Pool, steps: seq<Step>)
    decreases |steps|
  {
    && Filed(p.chain, p.buckets)
    && (steps == [] || (Effective(p, steps[0]) && AllEffective(Do(p, steps[0]), steps[1..])))
  }

  function AllShifted(steps: seq<Step>, n: nat): seq<Step>
  {
    if steps == [] then [] else [Shifted(steps[0], n)] + AllShifted(steps[1..], n)
  }

  /** A run on the shorter chain, done on the longer one: the blocks in front stay as they are. */
  lemma {:induction false} RunPrefixed(before: seq<Block>, p: Pool, base: nat, n: nat, lo: nat, regions: nat,
                                       steps: seq<Step>)
    requires Inv(p, base, n) && InFront(before, base) && Inv(Prefixed(before, p), lo, regions)
    requires AllEffective(p, steps)
    ensures Run(Prefixed(before, p), lo, regions, AllShifted(steps, |before|))
      == Prefixed(before, Run(p, base, n, steps))
    decreases |steps|
  {
    if steps != [] {
      DoPrefixed(before, p, base, n, lo, regions, steps[0]);
      DoKeeps(p, base, n, steps[0]);
      DoKeeps(Prefixed(before, p), lo, regions, Shifted(steps[0], |before|));
      RunPrefixed(before, Do(p, steps[0]), base, n, lo, regions, steps[1..]);
      assert AllShifted(steps, |before|)[1..] == AllShifted(steps[1..], |before|);
    }
  }

  lemma EffectiveThen(p: Pool, step: Step, q: Pool, steps: seq<Step>, rest: seq<Step>)
    requires Filed(p.chain, p.buckets) && Effective(p, step) && Do(p, step) == q && steps == [step] + rest
    requires AllEffective(q, rest)
    ensures AllEffective(p, steps)
  {
    assert steps[0] == step && steps[1..] == rest;
  }

  /** One more step of the run across the boundary. */
  lemma InvThen(p: Pool, lo: nat, step: Step, q: Pool)
    requires Inv(p, lo, 2) && Do(p, step) == q
    ensures Inv(q, lo, 2)
  {
    DoKeeps(p, lo, 2, step);
  }

  lemma FreesEffective(lo: nat)
    requires Inv(BuddyLimits.AllTaken(lo), lo, 2)
    ensures AllEffective(BuddyLimits.AllTaken(lo), BuddyLimits.LastFrees(lo))
  {
    var half := BuddyLimits.HALF;
    BuddyLimits.FreeThird(lo);
    InvThen(BuddyLimits.AllTaken(lo), lo, Free(lo + 2 * half), BuddyLimits.ThirdLoose(lo));
    LastFreeEffective(lo);
    EffectiveThen(BuddyLimits.AllTaken(lo), Free(lo + 2 * half), BuddyLimits.ThirdLoose(lo), BuddyLimits.LastFrees(lo),
                  [Free(lo + half)]);
  }

  lemma LastFreeEffective(lo: nat)
    requires Inv(BuddyLimits.ThirdLoose(lo), lo, 2)
    ensures AllEffective(BuddyLimits.ThirdLoose(lo), [Free(lo + BuddyLimits.HALF)])
  {
    var half := BuddyLimits.HALF;
    BuddyLimits.FreeSecond(lo);
    InvThen(BuddyLimits.ThirdLoose(lo), lo, Free(lo + half), BuddyLimits.Across(lo));
    EffectiveThen(BuddyLimits.ThirdLoose(lo), Free(lo + half), BuddyLimits.Across(lo), [Free(lo + half)], []);
  }

  lemma FourthEffective(lo: nat)
    requires Inv(BuddyLimits.ThreeTaken(lo), lo, 2)
    ensures AllEffective(BuddyLimits.ThreeTaken(lo), BuddyLimits.FromThree(lo))
  {
    var p, q, step := BuddyLimits.ThreeTaken(lo), BuddyLimits.AllTaken(lo), Allocate(BuddyLimits.HALF, 3);
    BuddyLimits.TakeFourth(lo);
    InvThen(p, lo, step, q);
    FreesEffective(lo);
    EffectiveThen(p, step, q, BuddyLimits.FromThree(lo), BuddyLimits.LastFrees(lo));
  }

  lemma ThirdEffective(lo: nat)
    requires Inv(BuddyLimits.TwoTaken(lo), lo, 2)
    ensures AllEffective(BuddyLimits.TwoTaken(lo), BuddyLimits.FromTwo(lo))
  {
    var p, q, step := BuddyLimits.TwoTaken(lo), BuddyLimits.ThreeTaken(lo), Allocate(BuddyLimits.HALF, 2);
    BuddyLimits.TakeThird(lo);
    InvThen(p, lo, step, q);
    FourthEffective(lo);
    EffectiveThen(p, step, q, BuddyLimits.FromTwo(lo), BuddyLimits.FromThree(lo));
  }

  lemma SecondEffective(lo: nat)
    requires Inv(BuddyLimits.OneTaken(lo), lo, 2)
    ensures AllEffective(BuddyLimits.OneTaken(lo), BuddyLimits.FromOne(lo))
  {
    var p, q, step := BuddyLimits.OneTaken(lo), BuddyLimits.TwoTaken(lo), Allocate(BuddyLimits.HALF, 1);
    BuddyLimits.TakeSecond(lo);
    InvThen(p, lo, step, q);
    ThirdEffective(lo);
    EffectiveThen(p, step, q, BuddyLimits.FromOne(lo), BuddyLimits.FromTwo(lo));
  }

  lemma AcrossEffective(lo: nat)
    requires lo > 0
    ensures Inv(Boot(lo, 2), lo, 2) && AllEffective(Boot(lo, 2), BuddyLimits.AcrossRun(lo))
  {
    var p, q, step := BuddyLimits.TwoRegions(lo), BuddyLimits.OneTaken(lo), Allocate(BuddyLimits.HALF, 0);
    BuddyLimits.BootTwo(lo);
    BuddyLimits.TakeFirst(lo);
    InvThen(p, lo, step, q);
    SecondEffective(lo);
    EffectiveThen(p, step, q, BuddyLimits.AcrossRun(lo), BuddyLimits.FromOne(lo));
  }

  // ------------------------------------------------------------------ boundaries

  /** All regions but the last two. */
  function InitialBlocks(lo: nat, n: nat): seq<Block>
  {
    seq(n, i requires 0 <= i < n => Block(lo + i * REGION, MAX_ORDER, true, true, false))
  }

  lemma BootIsPrefixed(lo: nat, regions: nat)
    requires regions >= 2
    ensures Boot(lo, regions) == Prefixed(InitialBlocks(lo, regions - 2), Boot(lo + (regions - 2) * REGION, 2))
    ensures InFront(InitialBlocks(lo, regions - 2), lo + (regions - 2) * REGION)
  {
    var n := regions - 2;
    var base, before := lo + n * REGION, InitialBlocks(lo, n);
    var p, q := Boot(lo, regions), Prefixed(before, Boot(base, 2));
    assert p.chain == q.chain;
    forall o | 0 <= o <= MAX_ORDER ensures p.buckets[o] == q.buckets[o] {
      if o == MAX_ORDER { StartsSplit(lo, n); }
    }
    BuddyLimits.SameBuckets(p.buckets, q.buckets);
  }

  /** The starts of `n` regions from `lo` on. */
  function StartSet(lo: nat, n: nat): set<nat>
  {
    set i: nat | i < n :: lo + i * REGION
  }

  lemma StartSetNext(lo: nat, n: nat)
    ensures StartSet(lo, n + 1) == StartSet(lo, n) + {lo + n * REGION}
  {
  }

  lemma StartsSplit(lo: nat, n: nat)
    ensures StartSet(lo, n + 2) == StartSet(lo + n * REGION, 2) + StartsOf(InitialBlocks(lo, n))
  {
    var before := InitialBlocks(lo, n);
    StartSetNext(lo, n);
    StartSetNext(lo, n + 1);
    StartSetNext(lo + n * REGION, 0);
    StartSetNext(lo + n * REGION, 1);
    assert StartSet(lo + n * REGION, 0) == {};
    forall x ensures x in StartSet(lo, n) <==> x in StartsOf(before) {
      if i: nat :| i < n && x == lo + i * REGION {
        assert before[i] in before && before[i].start == x;
      }
      if x in StartsOf(before) {
        var i :| 0 <= i < n && before[i].start == x;
      }
    }
    assert lo + n * REGION + REGION == lo + (n + 1) * REGION;
  }

  ghost function ChainAfter(lo: nat, regions: nat, steps: seq<Step>): seq<Block>
    requires lo > 0 && regions > 0
  {
    BootInv(lo, regions);
    Run(Boot(lo, regions), lo, regions, steps).chain
  }

  /** No block lies across `s`. */
  ghost predicate Uncrossed(chain: seq<Block>, s: nat)
  {
    forall b | b in chain :: !(b.start < s < b.start + Size(b))
  }

  /** The start of the last of two or more regions can be crossed. */
  lemma LastIsCrossed(lo: nat, regions: nat) returns (steps: seq<Step>)
    requires lo > 0 && regions >= 2
    ensures !Uncrossed(ChainAfter(lo, regions, steps), lo + (regions - 1) * REGION)
  {
    var base, before := lo + (regions - 2) * REGION, InitialBlocks(lo, regions - 2);
    steps := AllShifted(BuddyLimits.AcrossRun(base), |before|);
    BootInv(lo, regions);
    BootIsPrefixed(lo, regions);
    AcrossEffective(base);
    RunPrefixed(before, Boot(base, 2), base, 2, lo, regions, BuddyLimits.AcrossRun(base));
    BuddyLimits.LastBoundaryIsCrossed(base);
    var tail := Run(Boot(base, 2), base, 2, BuddyLimits.AcrossRun(base)).chain;
    assert ChainAfter(lo, regions, steps) == before + tail;
    assert tail[1] in before + tail;
  }

  lemma HeadIsUncrossed(chain: seq<Block>, lo: nat, hi: nat, s: nat)
    requires Tiles(chain, lo, hi) && HasHead(chain, s)
    ensures Uncrossed(chain, s)
  {
    var i := HeadIndex(chain, s);
    forall b | b in chain ensures !(b.start < s < b.start + Size(b)) {
      var j :| 0 <= j < |chain| && chain[j] == b;
      if j < i { StartsIncrease(chain, lo, hi, j, i); }
      if i < j { StartsIncrease(chain, lo, hi, i, j); }
    }
  }

  lemma FlaggedIsUncrossed(lo: nat, regions: nat, steps: seq<Step>, s: nat)
    requires lo > 0 && regions > 0 && IsBoundary(s, lo, regions)
    ensures Uncrossed(ChainAfter(lo, regions, steps), s)
  {
    BootInv(lo, regions);
    var r := Run(Boot(lo, regions), lo, regions, steps);
    assert HasHead(r.chain, s);
    HeadIsUncrossed(r.chain, lo, lo + regions * REGION, s);
  }

  lemma BoundaryIs(lo: nat, regions: nat, s: nat)
    requires regions >= 2 && lo <= s < lo + regions * REGION && (s - lo) % REGION == 0
    ensures IsBoundary(s, lo, regions) <==> s != lo + (regions - 1) * REGION
  {
    var i := (s - lo) / 1024;
    assert s == lo + 1024 * i && i < regions;
  }

  /** Every run keeps a region boundary uncrossed if and only if the boundary carries the first-block flag, that is, if
      it is not the start of the last region. */
  lemma UncrossedExactly(lo: nat, regions: nat, s: nat)
    requires lo > 0 && regions >= 2 && lo <= s < lo + regions * REGION && (s - lo) % REGION == 0
    ensures (forall steps :: Uncrossed(ChainAfter(lo, regions, steps), s)) <==> IsBoundary(s, lo, regions)
    ensures IsBoundary(s, lo, regions) <==> s != lo + (regions - 1) * REGION
  {
    BoundaryIs(lo, regions, s);
    if IsBoundary(s, lo, regions) {
      forall steps ensures Uncrossed(ChainAfter(lo, regions, steps), s) {
        FlaggedIsUncrossed(lo, regions, steps, s);
      }
    } else {
      var steps := LastIsCrossed(lo, regions);
    }
  }
}
