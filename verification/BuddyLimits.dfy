/** Two runs that show where the allocator falls short of a textbook buddy system: free memory that no
    search finds any more, and a block that lies across the boundary of the last region. */
module BuddyLimits {
  import opened Prelude
  import opened BuddyPool
  import opened BuddyRuns

  const HALF: nat := 512

  /** Buckets that hold blocks of half a region and of a whole region only. */
  function Buckets(halves: seq<nat>, wholes: seq<nat>): (r: seq<set<nat>>)
    ensures |r| == MAX_ORDER + 1
  {
    seq(MAX_ORDER + 1, o => if o == 9 then set x | x in halves else if o == MAX_ORDER then set x | x in wholes else {})
  }

  function Half(start: nat, free: bool, inTree: bool): Block
  {
    Block(start, 9, free, false, inTree)
  }

  lemma HalfRegion()
    ensures Pow2(9) == HALF && OrderFor(HALF) == Some(9)
  {
    assert Pow2(4) == 16;
    LargestRequest(HALF);
  }

  /** Allocating half a region takes a half from the tree if there is one. */
  lemma TakeHalf(p: Pool, k: nat, q: Pool)
    requires k < |p.chain| && p.chain[k].order == 9
    requires exists halves, wholes :: p.buckets == Buckets(halves, wholes) && p.chain[k].start in halves
    requires q == BookAt(TakeAt(p, k), k)
    ensures Offered(p, HALF, k) && Alloc(p, HALF, k) == q
  {
    HalfRegion();
    assert p.chain[k].start in p.buckets[9];
    assert TakeAt(p, k).chain[k].order == 9;
  }

  /** Otherwise it splits a whole region. */
  lemma TakeWhole(p: Pool, k: nat, wholes: seq<nat>, q: Pool)
    requires k < |p.chain| && p.chain[k].order == MAX_ORDER && p.buckets == Buckets([], wholes) &&
      p.chain[k].start in wholes
    requires q == BookAt(SplitAt(TakeAt(p, k), k), k)
    ensures Offered(p, HALF, k) && Alloc(p, HALF, k) == q
  {
    HalfRegion();
    assert p.buckets[9] == {} && p.chain[k].start in p.buckets[MAX_ORDER];
    assert Search(p.buckets, 9) == Search(p.buckets, 10) == Some(10);
    var t := TakeAt(p, k);
    assert t.chain[k].order == MAX_ORDER && SplitAt(t, k).chain[k].order == 9;
    assert SplitDown(t, k, 9) == SplitDown(SplitAt(t, k), k, 9) == SplitAt(t, k);
  }

  /** A run whose first step leads to `q`. */
  lemma RunOne(p: Pool, lo: nat, regions: nat, step: Step, q: Pool, steps: seq<Step>, rest: seq<Step>)
    requires Inv(p, lo, regions) && Do(p, step) == q && steps == [step] + rest
    ensures Inv(q, lo, regions) && Run(p, lo, regions, steps) == Run(q, lo, regions, rest)
  {
    DoKeeps(p, lo, regions, step);
    assert steps[0] == step && steps[1..] == rest;
  }

  // ------------------------------------------------------------------ lost memory

  function OneRegion(lo: nat): Pool
  {
    Pool([Block(lo, MAX_ORDER, true, false, false)], Buckets([], [lo]), {}, 0)
  }

  function FirstTaken(lo: nat): Pool
  {
    Pool([Half(lo, false, false), Half(lo + HALF, true, true)], Buckets([lo + HALF], []), {lo}, HALF)
  }

  function BothTaken(lo: nat): Pool
  {
    Pool([Half(lo, false, false), Half(lo + HALF, false, false)], Buckets([], []), {lo, lo + HALF}, 2 * HALF)
  }

  function FirstLost(lo: nat): Pool
  {
    Pool([Half(lo, true, false), Half(lo + HALF, false, false)], Buckets([], []), {lo + HALF}, HALF)
  }

  lemma SameBuckets(a: seq<set<nat>>, b: seq<set<nat>>)
    requires |a| == |b| == MAX_ORDER + 1 && forall o | 0 <= o <= MAX_ORDER :: a[o] == b[o]
    ensures a == b
  {
  }

  lemma BootOne(lo: nat)
    requires lo > 0
    ensures Inv(Boot(lo, 1), lo, 1) && Boot(lo, 1) == OneRegion(lo)
  {
    BootInv(lo, 1);
    assert Boot(lo, 1).chain == OneRegion(lo).chain;
    forall o | 0 <= o <= MAX_ORDER ensures Boot(lo, 1).buckets[o] == OneRegion(lo).buckets[o] {
      if o == MAX_ORDER {
        assert (set i: nat | i < 1 :: lo + i * REGION) == {lo} by { assert lo + 0 * REGION == lo; }
      }
    }
    SameBuckets(Boot(lo, 1).buckets, OneRegion(lo).buckets);
  }

  lemma OneToFirst(lo: nat)
    ensures Offered(OneRegion(lo), HALF, 0) && Alloc(OneRegion(lo), HALF, 0) == FirstTaken(lo)
  {
    HalfRegion();
    var p, t := OneRegion(lo), TakeAt(OneRegion(lo), 0);
    assert t.chain == [Block(lo, MAX_ORDER, true, false, false)];
    SameBuckets(t.buckets, Buckets([], []));
    var u := SplitAt(t, 0);
    assert u.chain == [Half(lo, true, false), Half(lo + HALF, true, true)];
    SameBuckets(u.buckets, Buckets([lo + HALF], []));
    TakeWhole(p, 0, [lo], BookAt(u, 0));
    assert BookAt(u, 0).chain == FirstTaken(lo).chain;
  }

  lemma FirstToBoth(lo: nat)
    ensures Offered(FirstTaken(lo), HALF, 1) && Alloc(FirstTaken(lo), HALF, 1) == BothTaken(lo)
  {
    HalfRegion();
    var p, t := FirstTaken(lo), TakeAt(FirstTaken(lo), 1);
    assert t.chain == [Half(lo, false, false), Half(lo + HALF, true, false)];
    SameBuckets(t.buckets, Buckets([], []));
    assert p.buckets == Buckets([lo + HALF], []) && p.chain[1].start in [lo + HALF];
    TakeHalf(p, 1, BookAt(t, 1));
    assert BookAt(t, 1).chain == BothTaken(lo).chain;
  }

  lemma BothToLost(lo: nat)
    requires Filed(BothTaken(lo).chain, BothTaken(lo).buckets)
    ensures Dealloc(BothTaken(lo), lo) == FirstLost(lo)
  {
    HalfRegion();
    var p, u := BothTaken(lo), UnbookAt(BothTaken(lo), 0);
    assert u.chain == FirstLost(lo).chain;
    assert {lo, lo + HALF} - {lo} == {lo + HALF};
    assert u == FirstLost(lo);
  }

  lemma NothingOffered(lo: nat, pages: nat, k: nat)
    ensures !Offered(FirstLost(lo), pages, k)
  {
    assert forall o | 0 <= o <= MAX_ORDER :: Buckets([], [])[o] == {};
  }

  lemma LostFromBoth(lo: nat)
    requires Inv(BothTaken(lo), lo, 1)
    ensures Run(BothTaken(lo), lo, 1, [Free(lo)]) == FirstLost(lo)
  {
    BothToLost(lo);
    RunOne(BothTaken(lo), lo, 1, Free(lo), FirstLost(lo), [Free(lo)], []);
  }

  lemma LostFromFirst(lo: nat)
    requires Inv(FirstTaken(lo), lo, 1)
    ensures Run(FirstTaken(lo), lo, 1, [Allocate(HALF, 1), Free(lo)]) == FirstLost(lo)
  {
    FirstToBoth(lo);
    RunOne(FirstTaken(lo), lo, 1, Allocate(HALF, 1), BothTaken(lo), [Allocate(HALF, 1), Free(lo)], [Free(lo)]);
    LostFromBoth(lo);
  }

  /** After two allocations of half a region and the return of the first, half the memory is free and no
      request for it, or for anything else, can be served. */
  lemma FreeMemoryIsLost(lo: nat)
    requires lo > 0
    ensures Inv(Boot(lo, 1), lo, 1)
    ensures var r := Run(Boot(lo, 1), lo, 1, [Allocate(HALF, 0), Allocate(HALF, 1), Free(lo)]);
      r.total == HALF && forall pages, k :: !Offered(r, pages, k)
  {
    BootOne(lo);
    OneToFirst(lo);
    RunOne(OneRegion(lo), lo, 1, Allocate(HALF, 0), FirstTaken(lo),
           [Allocate(HALF, 0), Allocate(HALF, 1), Free(lo)], [Allocate(HALF, 1), Free(lo)]);
    LostFromFirst(lo);
    forall pages, k ensures !Offered(FirstLost(lo), pages, k) {
      NothingOffered(lo, pages, k);
    }
  }

  // ------------------------------------------------------------------ a block across a boundary

  function TwoRegions(lo: nat): Pool
  {
    Pool([Block(lo, MAX_ORDER, true, true, false), Block(lo + REGION, MAX_ORDER, true, false, false)],
         Buckets([], [lo, lo + REGION]), {}, 0)
  }

  /** Four halves of two regions, with the marks of each. */
  function Halves(lo: nat, a: (bool, bool), b: (bool, bool), c: (bool, bool), d: (bool, bool)): seq<Block>
  {
    [Half(lo, a.0, a.1).(first := true), Half(lo + HALF, b.0, b.1), Half(lo + 2 * HALF, c.0, c.1),
      Half(lo + 3 * HALF, d.0, d.1)]
  }

  const USED := (false, false)
  const LOOSE := (true, false)     // free, but not in the tree

  function AllTaken(lo: nat): Pool
  {
    Pool(Halves(lo, USED, USED, USED, USED), Buckets([], []), {lo, lo + HALF, lo + 2 * HALF, lo + 3 * HALF}, 4 * HALF)
  }

  function ThirdLoose(lo: nat): Pool
  {
    Pool(Halves(lo, USED, USED, LOOSE, USED), Buckets([], []), {lo, lo + HALF, lo + 3 * HALF}, 3 * HALF)
  }

  function Across(lo: nat): Pool
  {
    Pool([Half(lo, false, false).(first := true), Block(lo + HALF, MAX_ORDER, true, false, true),
      Half(lo + 3 * HALF, false, false)],
         Buckets([], [lo + HALF]), {lo, lo + 3 * HALF}, 2 * HALF)
  }

  lemma FreeThird(lo: nat)
    requires Filed(AllTaken(lo).chain, AllTaken(lo).buckets)
    ensures Dealloc(AllTaken(lo), lo + 2 * HALF) == ThirdLoose(lo)
  {
    HalfRegion();
    var p := AllTaken(lo);
    assert Find(p.chain, lo + 2 * HALF) == Some(2);
    var u := UnbookAt(p, 2);
    assert u.chain == ThirdLoose(lo).chain && u.used == ThirdLoose(lo).used;
    assert u == ThirdLoose(lo);
  }

  lemma FreeSecond(lo: nat)
    requires Filed(ThirdLoose(lo).chain, ThirdLoose(lo).buckets)
    ensures Dealloc(ThirdLoose(lo), lo + HALF) == Across(lo)
  {
    HalfRegion();
    var p := ThirdLoose(lo);
    assert Find(p.chain, lo + HALF) == Some(1);
    var u := UnbookAt(p, 1);
    assert u.chain == Halves(lo, USED, LOOSE, LOOSE, USED) && u.used == {lo, lo + 3 * HALF};
    assert Mergeable(u.chain, 1);
    var m := AbsorbAt(u, 1);
    assert m.chain == [u.chain[0], Block(lo + HALF, MAX_ORDER, true, false, false), u.chain[3]];
    SameBuckets(FileAt(m, 1).buckets, Across(lo).buckets);
    assert FileAt(m, 1).chain == Across(lo).chain;
  }

  function OneTaken(lo: nat): Pool
  {
    Pool([Half(lo, false, false).(first := true), Half(lo + HALF, true, true),
      Block(lo + REGION, MAX_ORDER, true, false, false)],
         Buckets([lo + HALF], [lo + REGION]), {lo}, HALF)
  }

  function TwoTaken(lo: nat): Pool
  {
    Pool([Half(lo, false, false).(first := true), Half(lo + HALF, false, false),
      Block(lo + REGION, MAX_ORDER, true, false, false)],
         Buckets([], [lo + REGION]), {lo, lo + HALF}, 2 * HALF)
  }

  function ThreeTaken(lo: nat): Pool
  {
    Pool(Halves(lo, USED, USED, USED, (true, true)), Buckets([lo + 3 * HALF], []), {lo, lo + HALF, lo + 2 * HALF},
      3 * HALF)
  }

  lemma BootTwo(lo: nat)
    requires lo > 0
    ensures Inv(Boot(lo, 2), lo, 2) && Boot(lo, 2) == TwoRegions(lo)
  {
    BootInv(lo, 2);
    var p, q := Boot(lo, 2), TwoRegions(lo);
    assert p.chain == q.chain;
    forall o | 0 <= o <= MAX_ORDER ensures p.buckets[o] == q.buckets[o] {
      if o == MAX_ORDER {
        assert (set i: nat | i < 2 :: lo + i * REGION) == {lo, lo + REGION} by {
          assert lo + 0 * REGION == lo && lo + 1 * REGION == lo + REGION;
        }
      }
    }
    SameBuckets(p.buckets, q.buckets);
  }

  lemma TakeFirst(lo: nat)
    ensures Offered(TwoRegions(lo), HALF, 0) && Alloc(TwoRegions(lo), HALF, 0) == OneTaken(lo)
  {
    HalfRegion();
    var p, t := TwoRegions(lo), TakeAt(TwoRegions(lo), 0);
    assert t.chain == p.chain;
    SameBuckets(t.buckets, Buckets([], [lo + REGION]));
    var u := SplitAt(t, 0);
    assert u.chain == [Half(lo, true, false).(first := true), Half(lo + HALF, true, true), p.chain[1]];
    SameBuckets(u.buckets, Buckets([lo + HALF], [lo + REGION]));
    TakeWhole(p, 0, [lo, lo + REGION], BookAt(u, 0));
    assert BookAt(u, 0).chain == OneTaken(lo).chain;
  }

  lemma TakeSecond(lo: nat)
    ensures Offered(OneTaken(lo), HALF, 1) && Alloc(OneTaken(lo), HALF, 1) == TwoTaken(lo)
  {
    HalfRegion();
    var p, t := OneTaken(lo), TakeAt(OneTaken(lo), 1);
    assert t.chain == [p.chain[0], Half(lo + HALF, true, false), p.chain[2]];
    SameBuckets(t.buckets, Buckets([], [lo + REGION]));
    assert p.buckets == Buckets([lo + HALF], [lo + REGION]) && p.chain[1].start in [lo + HALF];
    TakeHalf(p, 1, BookAt(t, 1));
    assert BookAt(t, 1).chain == TwoTaken(lo).chain;
  }

  lemma TakeThird(lo: nat)
    ensures Offered(TwoTaken(lo), HALF, 2) && Alloc(TwoTaken(lo), HALF, 2) == ThreeTaken(lo)
  {
    HalfRegion();
    var p, t := TwoTaken(lo), TakeAt(TwoTaken(lo), 2);
    assert t.chain == p.chain;
    SameBuckets(t.buckets, Buckets([], []));
    var u := SplitAt(t, 2);
    assert u.chain == [p.chain[0], p.chain[1], Half(lo + 2 * HALF, true, false), Half(lo + 3 * HALF, true, true)];
    SameBuckets(u.buckets, Buckets([lo + 3 * HALF], []));
    TakeWhole(p, 2, [lo + REGION], BookAt(u, 2));
    assert BookAt(u, 2).chain == ThreeTaken(lo).chain;
  }

  lemma TakeFourth(lo: nat)
    ensures Offered(ThreeTaken(lo), HALF, 3) && Alloc(ThreeTaken(lo), HALF, 3) == AllTaken(lo)
  {
    HalfRegion();
    var p, t := ThreeTaken(lo), TakeAt(ThreeTaken(lo), 3);
    assert t.chain == [p.chain[0], p.chain[1], p.chain[2], Half(lo + 3 * HALF, true, false)];
    SameBuckets(t.buckets, Buckets([], []));
    assert p.buckets == Buckets([lo + 3 * HALF], []) && p.chain[3].start in [lo + 3 * HALF];
    TakeHalf(p, 3, BookAt(t, 3));
    assert BookAt(t, 3).chain == AllTaken(lo).chain;
  }

  function LastFrees(lo: nat): seq<Step> { [Free(lo + 2 * HALF), Free(lo + HALF)] }
  function FromThree(lo: nat): seq<Step> { [Allocate(HALF, 3)] + LastFrees(lo) }
  function FromTwo(lo: nat): seq<Step> { [Allocate(HALF, 2)] + FromThree(lo) }
  function FromOne(lo: nat): seq<Step> { [Allocate(HALF, 1)] + FromTwo(lo) }
  function AcrossRun(lo: nat): seq<Step> { [Allocate(HALF, 0)] + FromOne(lo) }

  lemma AcrossFromAll(lo: nat)
    requires Inv(AllTaken(lo), lo, 2)
    ensures Run(AllTaken(lo), lo, 2, LastFrees(lo)) == Across(lo)
  {
    FreeThird(lo);
    RunOne(AllTaken(lo), lo, 2, Free(lo + 2 * HALF), ThirdLoose(lo), LastFrees(lo), [Free(lo + HALF)]);
    AcrossFromThird(lo);
  }

  lemma AcrossFromThird(lo: nat)
    requires Inv(ThirdLoose(lo), lo, 2)
    ensures Run(ThirdLoose(lo), lo, 2, [Free(lo + HALF)]) == Across(lo)
  {
    FreeSecond(lo);
    RunOne(ThirdLoose(lo), lo, 2, Free(lo + HALF), Across(lo), [Free(lo + HALF)], []);
  }

  lemma AcrossFromTwo(lo: nat)
    requires Inv(TwoTaken(lo), lo, 2)
    ensures Run(TwoTaken(lo), lo, 2, FromTwo(lo)) == Across(lo)
  {
    TakeThird(lo);
    RunOne(TwoTaken(lo), lo, 2, Allocate(HALF, 2), ThreeTaken(lo), FromTwo(lo), FromThree(lo));
    TakeFourth(lo);
    RunOne(ThreeTaken(lo), lo, 2, Allocate(HALF, 3), AllTaken(lo), FromThree(lo), LastFrees(lo));
    AcrossFromAll(lo);
  }

  /** The head of the last region carries no flag, so it can be absorbed: after four allocations of half a
      region and two frees, one free block of MAX_ORDER starts in the middle of the first region and ends
      in the middle of the second. */
  lemma LastBoundaryIsCrossed(lo: nat)
    requires lo > 0
    ensures Inv(Boot(lo, 2), lo, 2)
    ensures var chain := Run(Boot(lo, 2), lo, 2, AcrossRun(lo)).chain;
      |chain| == 3 && chain[1].start == lo + HALF < lo + REGION < chain[1].start + Size(chain[1])
  {
    BootTwo(lo);
    TakeFirst(lo);
    RunOne(TwoRegions(lo), lo, 2, Allocate(HALF, 0), OneTaken(lo), AcrossRun(lo), FromOne(lo));
    TakeSecond(lo);
    RunOne(OneTaken(lo), lo, 2, Allocate(HALF, 1), TwoTaken(lo), FromOne(lo), FromTwo(lo));
    AcrossFromTwo(lo);
    RegionIsMaxOrder();
  }
}
