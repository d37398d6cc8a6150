/** How the page allocator cuts up memory at boot: the usable ranges are sorted by size, cut into blocks of 1024 pages
    and spare pages, and the blocks are shared out between the kernel's and the users' pool. Addresses are page
    numbers. */
module BootCarve {
  import BuddyRuns

  const POOL_SIZE: nat := 48000     // block structures

  datatype Range = Range(start: nat, pages: nat)

  // ------------------------------------------------------------------ sorting

  /** How many of `s` are larger than `x`. */
  ghost function Larger(x: Range, s: seq<Range>): nat
  {
    if s == [] then 0 else (if x.pages < s[0].pages then 1 else 0) + Larger(x, s[1..])
  }

  /** The pairs that are out of order. */
  ghost function Inversions(s: seq<Range>): nat
  {
    if s == [] then 0 else Larger(s[0], s[1..]) + Inversions(s[1..])
  }

  function Swapped(s: seq<Range>, i: nat): seq<Range>
    requires i + 1 < |s|
  {
    s[i := s[i + 1]][i + 1 := s[i]]
  }

  lemma {:induction false} LargerSwapped(x: Range, s: seq<Range>, i: nat)
    requires i + 1 < |s|
    ensures Larger(x, Swapped(s, i)) == Larger(x, s)
  {
    var t := Swapped(s, i);
    if i == 0 {
      assert t[1..][1..] == s[1..][1..];
      assert Larger(x, t[1..]) == (if x.pages < s[0].pages then 1 else 0) + Larger(x, s[1..][1..]);
    } else {
      assert t[1..] == Swapped(s[1..], i - 1);
      LargerSwapped(x, s[1..], i - 1);
    }
  }

  /** Exchanging two neighbours that are out of order removes exactly one inversion. */
  lemma {:induction false} SwapReduces(s: seq<Range>, i: nat)
    requires i + 1 < |s| && s[i].pages < s[i + 1].pages
    ensures Inversions(Swapped(s, i)) == Inversions(s) - 1
  {
    var t := Swapped(s, i);
    if i == 0 {
      var rest := s[1..][1..];
      assert t[1..][1..] == rest && t[1..][0] == s[0] && s[1..][0] == s[1];
      assert Larger(s[0], s[1..]) == 1 + Larger(s[0], rest) && Larger(s[1], t[1..]) == Larger(s[1], rest);
    } else {
      assert t[1..] == Swapped(s[1..], i - 1);
      SwapReduces(s[1..], i - 1);
      LargerSwapped(s[0], s[1..], i - 1);
    }
  }

  lemma SwapPermutes(s: seq<Range>, i: nat)
    requires i + 1 < |s|
    ensures multiset(Swapped(s, i)) == multiset(s)
  {
  }

  ghost predicate Descending(s: seq<Range>)
  {
    forall i, j | 0 <= i < j < |s| :: s[i].pages >= s[j].pages
  }

  lemma {:induction false} NeighboursSuffice(s: seq<Range>, i: nat, j: nat)
    requires i <= j < |s| && forall k | 0 <= k < |s| - 1 :: s[k].pages >= s[k + 1].pages
    ensures s[i].pages >= s[j].pages
  {
    if i < j { NeighboursSuffice(s, i, j - 1); }
  }

  /** One pass over the ranges. */
  method Pass(a: array<Range>) returns (changes: nat)
    requires a.Length > 0
    modifies a
    ensures multiset(a[..]) == multiset(old(a[..])) && Inversions(a[..]) + changes == Inversions(old(a[..]))
    ensures changes == 0 ==> forall k | 0 <= k < a.Length - 1 :: a[k].pages >= a[k + 1].pages
  {
    changes := 0;
    var i := 0;
    while i < a.Length - 1
      invariant i <= a.Length - 1 && multiset(a[..]) == multiset(old(a[..])) &&
        Inversions(a[..]) + changes == Inversions(old(a[..]))
      invariant changes == 0 ==> forall k | 0 <= k < i :: a[k].pages >= a[k + 1].pages
    {
      if a[i].pages < a[i + 1].pages {
        ghost var s := a[..];
        SwapReduces(s, i);
        SwapPermutes(s, i);
        a[i], a[i + 1] := a[i + 1], a[i];
        assert a[..] == Swapped(s, i);
        changes := changes + 1;
      }
      i := i + 1;
    }
  }

  /** The bubble sort of `phys_init`; the pairs out of order bound its passes. */
  method Sort(a: array<Range>)
    requires a.Length > 0
    modifies a
    ensures Descending(a[..]) && multiset(a[..]) == multiset(old(a[..]))
  {
    var changes := 1;
    while changes != 0
      invariant multiset(a[..]) == multiset(old(a[..]))
      invariant changes == 0 ==> forall k | 0 <= k < a.Length - 1 :: a[k].pages >= a[k + 1].pages
      decreases Inversions(a[..]), changes
    {
      changes := Pass(a);
    }
    forall i, j | 0 <= i < j < a.Length ensures a[i].pages >= a[j].pages {
      NeighboursSuffice(a[..], i, j);
    }
  }

  // ------------------------------------------------------------------ cutting

  datatype Block = Block(start: nat, zone: nat, first: bool)

  function InRange(r: Range, x: nat): nat
  {
    if r.start <= x < r.start + r.pages then 1 else 0
  }

  function Covers(b: Block, x: nat): nat
  {
    if b.start <= x < b.start + 1024 then 1 else 0
  }

  /** How many ranges, blocks and spare entries hold page `x`. */
  ghost function RangesWith(s: seq<Range>, x: nat): nat
  {
    if s == [] then 0 else RangesWith(s[..|s| - 1], x) + InRange(s[|s| - 1], x)
  }

  ghost function BlocksWith(s: seq<Block>, x: nat): nat
  {
    if s == [] then 0 else BlocksWith(s[..|s| - 1], x) + Covers(s[|s| - 1], x)
  }

  ghost function SpareWith(s: seq<nat>, x: nat): nat
  {
    if s == [] then 0 else (if s[0] == x then 1 else 0) + SpareWith(s[1..], x)
  }

  /** The first `n` blocks of a range; all but the last carry the first-block flag. */
  function Cut(r: Range, zone: nat, n: nat): seq<Block>
  {
    seq(n, m requires 0 <= m < n => Block(r.start + 1024 * m, zone, m + 1 < n))
  }

  /** The blocks of a range are the chain the allocator of that range starts from. */
  lemma CutIsBootChain(r: Range, zone: nat, n: nat)
    ensures |Cut(r, zone, n)| == |BuddyRuns.Boot(r.start, n).chain| == n
    ensures forall m | 0 <= m < n ::
      var b, c := Cut(r, zone, n)[m], BuddyRuns.Boot(r.start, n).chain[m];
      b.start == c.start && b.first == c.first && c.free && BuddyRuns.BuddyPool.Size(c) == 1024
  {
    BuddyRuns.BuddyPool.RegionIsMaxOrder();
  }

  /** The last block gets the flag and a new block follows. */
  function Extended(s: seq<Block>, b: Block): seq<Block>
  {
    if s != [] && s[|s| - 1].zone == b.zone then s[|s| - 1 := s[|s| - 1].(first := true)] + [b] else s + [b]
  }

  lemma ExtendedWith(s: seq<Block>, b: Block, x: nat)
    ensures BlocksWith(Extended(s, b), x) == BlocksWith(s, x) + Covers(b, x)
  {
    var t := Extended(s, b);
    assert t[..|t| - 1] == if s != [] && s[|s| - 1].zone == b.zone then s[|s| - 1 := s[|s| - 1].(first := true)] else s;
    if s != [] {
      assert t[..|t| - 1][..|s| - 1] == s[..|s| - 1];
    }
  }

  lemma CutExtends(before: seq<Block>, r: Range, zone: nat, n: nat)
    requires before != [] ==> before[|before| - 1].zone != zone
    ensures before + Cut(r, zone, n + 1) == Extended(before + Cut(r, zone, n), Block(r.start + 1024 * n, zone, false))
  {
    if n == 0 { assert before + Cut(r, zone, 0) == before; }
  }

  /** Every page from `from` on goes to the spare list. */
  method Spare(r: Range, from: nat, spare: seq<nat>) returns (more: seq<nat>)
    requires from <= r.pages
    ensures forall x: nat ::
      SpareWith(more, x) == SpareWith(spare, x) + (if r.start + from <= x < r.start + r.pages then 1 else 0)
  {
    more := spare;
    var k := from;
    while k < r.pages
      invariant from <= k <= r.pages
      invariant forall x: nat ::
        SpareWith(more, x) == SpareWith(spare, x) + (if r.start + from <= x < r.start + k then 1 else 0)
    {
      ghost var was := more;
      more := [r.start + k] + more;
      assert more[1..] == was;
      k := k + 1;
    }
  }

  /** One more block of a range, and what it covers. */
  lemma OneBlock(before: seq<Block>, r: Range, zone: nat, n: nat, blocks: seq<Block>, x: nat)
    requires (before != [] ==> before[|before| - 1].zone != zone) && blocks == before + Cut(r, zone, n)
    ensures Extended(blocks, Block(r.start + 1024 * n, zone, false)) == before + Cut(r, zone, n + 1)
    ensures BlocksWith(before + Cut(r, zone, n + 1), x) == BlocksWith(blocks, x) +
      Covers(Block(r.start + 1024 * n, zone, false), x)
  {
    CutExtends(before, r, zone, n);
    ExtendedWith(blocks, Block(r.start + 1024 * n, zone, false), x);
  }

  lemma {:induction false} CutCovers(before: seq<Block>, r: Range, zone: nat, n: nat, x: nat)
    requires before != [] ==> before[|before| - 1].zone != zone
    ensures BlocksWith(before + Cut(r, zone, n), x) == BlocksWith(before, x) + if r.start <= x < r.start + 1024 * n
      then 1 else 0
  {
    if n == 0 {
      assert before + Cut(r, zone, 0) == before;
    } else {
      CutCovers(before, r, zone, n - 1, x);
      OneBlock(before, r, zone, n - 1, before + Cut(r, zone, n - 1), x);
    }
  }

  /** Where the whole blocks of a range end. */
  function WholeEnd(r: Range): nat
  {
    r.start + 1024 * (r.pages / 1024)
  }

  function InWhole(r: Range, x: nat): nat
  {
    if r.start <= x < WholeEnd(r) then 1 else 0
  }

  function InRest(r: Range, x: nat): nat
  {
    if WholeEnd(r) <= x < r.start + r.pages then 1 else 0
  }

  /** Cuts one range; false stands for the panic when the block structures run out. */
  method CutRange(r: Range, zone: nat, before: seq<Block>, spare: seq<nat>)
    returns (ok: bool, blocks: seq<Block>, more: seq<nat>)
    requires (before != [] ==> before[|before| - 1].zone != zone) && |before| < POOL_SIZE
    ensures ok <==> |before| + r.pages / 1024 < POOL_SIZE
    ensures ok ==> blocks == before + Cut(r, zone, r.pages / 1024)
    ensures ok ==> forall x: nat :: BlocksWith(blocks, x) == BlocksWith(before, x) + InWhole(r, x)
    ensures ok ==> forall x: nat :: SpareWith(more, x) == SpareWith(spare, x) + InRest(r, x)
  {
    ok, blocks, more := true, before, spare;
    if r.pages < 1024 {
      more := Spare(r, 0, spare);
      assert blocks == before + Cut(r, zone, 0);
      return;
    }
    var j;
    ok, blocks, j := CutWhole(r, zone, before);
    if ok {
      more := Spare(r, j, spare);
      forall x: nat ensures BlocksWith(blocks, x) == BlocksWith(before, x) + InWhole(r, x) {
        CutCovers(before, r, zone, r.pages / 1024, x);
      }
    }
  }

  /** The whole blocks of a range, up to page `j`. */
  method CutWhole(r: Range, zone: nat, before: seq<Block>) returns (ok: bool, blocks: seq<Block>, j: nat)
    requires (before != [] ==> before[|before| - 1].zone != zone) && |before| < POOL_SIZE
    ensures ok <==> |before| + r.pages / 1024 < POOL_SIZE
    ensures ok ==> blocks == before + Cut(r, zone, r.pages / 1024) && j == 1024 * (r.pages / 1024)
  {
    ok, blocks, j := true, before, 0;
    ghost var n := 0;
    assert blocks == before + Cut(r, zone, 0);
    while r.pages - j >= 1024
      invariant j == 1024 * n <= r.pages && blocks == before + Cut(r, zone, n) && |before| + n < POOL_SIZE
    {
      CutExtends(before, r, zone, n);
      blocks := Extended(blocks, Block(r.start + j, zone, false));
      j, n := j + 1024, n + 1;
      if |blocks| == POOL_SIZE {
        ok := false;
        return;
      }
    }
  }

  /** The blocks that all ranges give together. */
  ghost function BlockTotal(s: seq<Range>): nat
  {
    if s == [] then 0 else BlockTotal(s[..|s| - 1]) + s[|s| - 1].pages / 1024
  }

  lemma {:induction false} TotalSplit(a: seq<Range>, b: seq<Range>)
    ensures BlockTotal(a + b) == BlockTotal(a) + BlockTotal(b)
  {
    if b == [] {
      assert a + b == a;
    } else {
      TotalSplit(a, b[..|b| - 1]);
      assert (a + b)[..|a + b| - 1] == a + b[..|b| - 1];
    }
  }

  ghost predicate ZonesAscend(blocks: seq<Block>, zones: nat)
  {
    && (forall i | 0 <= i < |blocks| :: blocks[i].zone < zones)
    && (forall i, j | 0 <= i < j < |blocks| :: blocks[i].zone <= blocks[j].zone)
  }

  /** How many ranges hold page `x` in their whole blocks, and how many behind them. */
  ghost function WholeWith(s: seq<Range>, x: nat): nat
  {
    if s == [] then 0 else WholeWith(s[..|s| - 1], x) + InWhole(s[|s| - 1], x)
  }

  ghost function RestWith(s: seq<Range>, x: nat): nat
  {
    if s == [] then 0 else RestWith(s[..|s| - 1], x) + InRest(s[|s| - 1], x)
  }

  lemma {:induction false} WholeAndRest(s: seq<Range>, x: nat)
    ensures WholeWith(s, x) + RestWith(s, x) == RangesWith(s, x)
  {
    if s != [] { WholeAndRest(s[..|s| - 1], x); }
  }

  /** The blocks of all ranges, one range after the other; the range is the zone. */
  function Cuts(s: seq<Range>): seq<Block>
  {
    if s == [] then [] else Cuts(s[..|s| - 1]) + Cut(s[|s| - 1], |s| - 1, s[|s| - 1].pages / 1024)
  }

  /** The blocks in order: `n` ranges give `n` zones, a block follows the one before it by 1024 pages in its zone, and a
      block carries the first-block flag exactly if another of its zone follows. */
  ghost predicate InOrder(blocks: seq<Block>, ranges: seq<Range>)
  {
    && (forall i | 0 <= i < |blocks| :: blocks[i].zone < |ranges| && InZone(blocks[i], ranges[blocks[i].zone]))
    && (forall i | 0 <= i < |blocks| - 1 :: Follows(blocks[i], blocks[i + 1]))
    && (blocks != [] ==> !blocks[|blocks| - 1].first)
  }

  predicate InZone(b: Block, r: Range)
  {
    r.start <= b.start && b.start + 1024 <= r.start + r.pages && (b.start - r.start) % 1024 == 0
  }

  predicate Follows(b: Block, c: Block)
  {
    if b.zone == c.zone then b.first && c.start == b.start + 1024 else b.zone < c.zone && !b.first
  }

  lemma {:induction false} CutsInOrder(ranges: seq<Range>)
    ensures InOrder(Cuts(ranges), ranges) && |Cuts(ranges)| == BlockTotal(ranges) && ZonesAscend(Cuts(ranges), |ranges|)
  {
    if ranges != [] {
      var n := |ranges| - 1;
      CutsInOrder(ranges[..n]);
      var before, cut, blocks := Cuts(ranges[..n]), Cut(ranges[n], n, ranges[n].pages / 1024), Cuts(ranges);
      forall i | 0 <= i < |blocks|
        ensures blocks[i].zone < |ranges| && InZone(blocks[i], ranges[blocks[i].zone])
      {
        if i < |before| { assert blocks[i] == before[i]; } else { CutInZone(ranges[n], n, i - |before|); }
      }
      forall i | 0 <= i < |blocks| - 1 ensures Follows(blocks[i], blocks[i + 1]) {
        if i + 1 < |before| { assert Follows(before[i], before[i + 1]); }
      }
    }
  }

  lemma CutInZone(r: Range, zone: nat, m: nat)
    requires m < r.pages / 1024
    ensures InZone(Cut(r, zone, r.pages / 1024)[m], r)
  {
  }

  /** Cuts all ranges, which succeeds if and only if the block structures suffice: the blocks are those of all ranges in
      order, and every page behind the whole blocks of a range is spare. */
  method Carve(ranges: seq<Range>) returns (ok: bool, blocks: seq<Block>, spare: seq<nat>)
    ensures ok <==> BlockTotal(ranges) < POOL_SIZE
    ensures ok ==> blocks == Cuts(ranges) && InOrder(blocks, ranges) && |blocks| == BlockTotal(ranges)
    ensures ok ==> forall x: nat :: BlocksWith(blocks, x) == WholeWith(ranges, x)
    ensures ok ==> forall x: nat :: SpareWith(spare, x) == RestWith(ranges, x)
    ensures ok ==> ZonesAscend(blocks, |ranges|) && |blocks| < POOL_SIZE
  {
    ok, blocks, spare := true, [], [];
    var i := 0;
    while i < |ranges|
      invariant i <= |ranges| && ok && blocks == Cuts(ranges[..i]) && |blocks| < POOL_SIZE
      invariant forall x: nat :: BlocksWith(blocks, x) == WholeWith(ranges[..i], x)
      invariant forall x: nat :: SpareWith(spare, x) == RestWith(ranges[..i], x)
    {
      CutsInOrder(ranges[..i]);
      assert ranges[..i + 1][..i] == ranges[..i];
      ok, blocks, spare := CutRange(ranges[i], i, blocks, spare);
      if !ok {
        TotalSplit(ranges[..i + 1], ranges[i + 1..]);
        assert ranges == ranges[..i + 1] + ranges[i + 1..];
        return;
      }
      i := i + 1;
    }
    assert ranges[..i] == ranges;
    CutsInOrder(ranges);
  }

  ghost predicate Disjoint(ranges: seq<Range>)
  {
    forall i, j | 0 <= i < j < |ranges| ::
      ranges[i].start + ranges[i].pages <= ranges[j].start || ranges[j].start + ranges[j].pages <= ranges[i].start
  }

  /** Pages of disjoint ranges are in one range only. */
  lemma {:induction false} DisjointOnce(ranges: seq<Range>, x: nat)
    requires Disjoint(ranges)
    ensures RangesWith(ranges, x) == if exists i | 0 <= i < |ranges| :: InRange(ranges[i], x) == 1 then 1 else 0
  {
    if ranges != [] {
      var n := |ranges| - 1;
      DisjointOnce(ranges[..n], x);
      if InRange(ranges[n], x) == 1 {
        assert forall i | 0 <= i < n :: InRange(ranges[..n][i], x) == 0;
      } else if i :| 0 <= i < |ranges| && InRange(ranges[i], x) == 1 {
        assert InRange(ranges[..n][i], x) == 1;
      }
    }
  }

  // ------------------------------------------------------------------ sharing out

  function AboveSpan(blocks: seq<Block>, span: nat): seq<Block>
  {
    if blocks == [] then []
    else
      var b := blocks[|blocks| - 1];
      AboveSpan(blocks[..|blocks| - 1], span) + if b.start > span then [b] else []
  }

  function UpToSpan(blocks: seq<Block>, span: nat): seq<Block>
  {
    if blocks == [] then []
    else
      var b := blocks[|blocks| - 1];
      UpToSpan(blocks[..|blocks| - 1], span) + if b.start > span then [] else [b]
  }

  /** The last loops of `phys_init`: they reach every block, and put it into exactly one pool by its address. */
  method ShareOut(blocks: seq<Block>, ranges: nat, span: nat) returns (kernel: seq<Block>, user: seq<Block>)
    requires ZonesAscend(blocks, ranges)
    ensures kernel == AboveSpan(blocks, span) && user == UpToSpan(blocks, span)
  {
    var index := 0;
    kernel, user := [], [];
    for i := 0 to ranges
      invariant index <= |blocks| && kernel == AboveSpan(blocks[..index], span) &&
        user == UpToSpan(blocks[..index], span)
      invariant index < |blocks| ==> blocks[index].zone >= i
    {
      while index < |blocks| && blocks[index].zone == i
        invariant index <= |blocks| && kernel == AboveSpan(blocks[..index], span) &&
          user == UpToSpan(blocks[..index], span)
        invariant index < |blocks| ==> blocks[index].zone >= i
      {
        assert blocks[..index + 1][..index] == blocks[..index];
        if blocks[index].start > span {
          kernel := kernel + [blocks[index]];
        } else {
          user := user + [blocks[index]];
        }
        index := index + 1;
      }
    }
    assert index == |blocks|;
    assert blocks[..index] == blocks;
  }

  /** The two pools together hold every page as often as the blocks do. */
  lemma {:induction false} PoolsPartition(blocks: seq<Block>, span: nat, x: nat)
    ensures BlocksWith(AboveSpan(blocks, span), x) + BlocksWith(UpToSpan(blocks, span), x) == BlocksWith(blocks, x)
  {
    if blocks != [] {
      var n := |blocks| - 1;
      var above, upTo := AboveSpan(blocks[..n], span), UpToSpan(blocks[..n], span);
      PoolsPartition(blocks[..n], span, x);
      OneMore(above, blocks[n], x);
      OneMore(upTo, blocks[n], x);
      assert above + [] == above && upTo + [] == upTo;
    }
  }

  /** Which pool a block is in depends on its address only. */
  lemma {:induction false} PoolsByAddress(blocks: seq<Block>, span: nat)
    ensures forall b :: b in AboveSpan(blocks, span) <==> b in blocks && b.start > span
    ensures forall b :: b in UpToSpan(blocks, span) <==> b in blocks && b.start <= span
  {
    if blocks != [] {
      var n := |blocks| - 1;
      PoolsByAddress(blocks[..n], span);
      assert blocks == blocks[..n] + [blocks[n]];
    }
  }

  lemma OneMore(s: seq<Block>, b: Block, x: nat)
    ensures BlocksWith(s + [b], x) == BlocksWith(s, x) + Covers(b, x)
  {
    assert (s + [b])[..|s|] == s;
  }

  lemma {:induction false} PoolsLength(blocks: seq<Block>, span: nat)
    ensures |AboveSpan(blocks, span)| + |UpToSpan(blocks, span)| == |blocks|
  {
    if blocks != [] { PoolsLength(blocks[..|blocks| - 1], span); }
  }

  /** A page of one range only is in its whole blocks or behind them. */
  lemma {:induction false} OnceWhole(s: seq<Range>, i: nat, x: nat)
    requires i < |s| && InRange(s[i], x) == 1 && RangesWith(s, x) <= 1
    ensures WholeWith(s, x) == InWhole(s[i], x) && RestWith(s, x) == InRest(s[i], x)
  {
    var n := |s| - 1;
    WholeAndRest(s[..n], x);
    if i < n {
      RangeCounts(s[..n], i, x);
      OnceWhole(s[..n], i, x);
    }
  }

  lemma {:induction false} RangeCounts(s: seq<Range>, i: nat, x: nat)
    requires i < |s| && InRange(s[i], x) == 1
    ensures RangesWith(s, x) >= 1
  {
    if i < |s| - 1 { RangeCounts(s[..|s| - 1], i, x); }
  }

  /** The whole carve-up of `phys_init` on disjoint ranges, which succeeds if and only if the block structures suffice.
      A page of a range's whole blocks is in exactly one block of exactly one pool, which the block's address decides;
      a page behind them is once on the spare list; any other page is nowhere. The pools share out the blocks of all
      ranges, each flagged exactly if another of its range follows. */
  method PhysInit(a: array<Range>, span: nat) returns (ok: bool, kernel: seq<Block>, user: seq<Block>, spare: seq<nat>)
    requires a.Length > 0 && Disjoint(a[..])
    modifies a
    ensures Descending(a[..]) && multiset(a[..]) == multiset(old(a[..]))
    ensures ok <==> BlockTotal(old(a[..])) < POOL_SIZE
    ensures ok ==> |kernel| + |user| == BlockTotal(old(a[..])) && InOrder(Cuts(a[..]), a[..])
    ensures ok ==> forall b :: b in kernel <==> b in Cuts(a[..]) && b.start > span
    ensures ok ==> forall b :: b in user <==> b in Cuts(a[..]) && b.start <= span
    ensures ok ==> forall r, x: nat | r in old(a[..]) && InRange(r, x) == 1 ::
      BlocksWith(kernel, x) + BlocksWith(user, x) == InWhole(r, x) && SpareWith(spare, x) == InRest(r, x)
    ensures ok ==> forall x: nat | (forall r | r in old(a[..]) :: InRange(r, x) == 0) ::
      BlocksWith(kernel, x) + BlocksWith(user, x) == SpareWith(spare, x) == 0
  {
    Sort(a);
    SameTotal(a[..], old(a[..]));
    var blocks;
    ok, blocks, spare := Carve(a[..]);
    kernel, user := [], [];
    if ok {
      kernel, user := ShareOut(blocks, a.Length, span);
      PoolsByAddress(blocks, span);
      PoolsLength(blocks, span);
      PagesShared(old(a[..]), a[..], blocks, span, spare);
    }
  }

  /** Where each page goes, in terms of the ranges before they were sorted. */
  lemma PagesShared(ranges: seq<Range>, sorted: seq<Range>, blocks: seq<Block>, span: nat, spare: seq<nat>)
    requires Disjoint(ranges) && multiset(sorted) == multiset(ranges)
    requires forall x: nat ::
      BlocksWith(blocks, x) == WholeWith(sorted, x) && SpareWith(spare, x) == RestWith(sorted, x)
    ensures forall r, x: nat | r in ranges && InRange(r, x) == 1 ::
      BlocksWith(AboveSpan(blocks, span), x) + BlocksWith(UpToSpan(blocks, span), x) == InWhole(r, x) &&
      SpareWith(spare, x) == InRest(r, x)
    ensures forall x: nat | (forall r | r in ranges :: InRange(r, x) == 0) ::
      BlocksWith(AboveSpan(blocks, span), x) + BlocksWith(UpToSpan(blocks, span), x) == SpareWith(spare, x) == 0
  {
    forall r, x: nat | r in ranges && InRange(r, x) == 1
      ensures BlocksWith(AboveSpan(blocks, span), x) + BlocksWith(UpToSpan(blocks, span), x) == InWhole(r, x)
      ensures SpareWith(spare, x) == InRest(r, x)
    {
      PoolsPartition(blocks, span, x);
      SamePages(sorted, ranges, x);
      DisjointOnce(ranges, x);
      assert r in multiset(ranges) && r in multiset(sorted);
      var i :| 0 <= i < |sorted| && sorted[i] == r;
      OnceWhole(sorted, i, x);
    }
    forall x: nat | (forall r | r in ranges :: InRange(r, x) == 0)
      ensures BlocksWith(AboveSpan(blocks, span), x) + BlocksWith(UpToSpan(blocks, span), x) == SpareWith(spare, x) == 0
    {
      PoolsPartition(blocks, span, x);
      SamePages(sorted, ranges, x);
      DisjointOnce(ranges, x);
      WholeAndRest(sorted, x);
    }
  }

  /** Two arrangements of the same ranges differ in where one of them stands, and agree on the rest. */
  lemma Elsewhere(s: seq<Range>, t: seq<Range>) returns (k: nat)
    requires multiset(s) == multiset(t) && s != []
    ensures k < |t| && t[k] == s[|s| - 1] && multiset(s[..|s| - 1]) == multiset(t[..k] + t[k + 1..])
    ensures t == t[..k] + [t[k]] + t[k + 1..]
  {
    var n := |s| - 1;
    assert s == s[..n] + [s[n]];
    assert s[n] in multiset(t);
    k :| 0 <= k < |t| && t[k] == s[n];
    assert t == t[..k] + [t[k]] + t[k + 1..];
    assert multiset(s) == multiset(s[..n]) + multiset{s[n]};
    assert multiset(t) == multiset(t[..k]) + multiset{t[k]} + multiset(t[k + 1..]);
    assert multiset(t[..k] + t[k + 1..]) == multiset(t[..k]) + multiset(t[k + 1..]);
    assert multiset(s[..n]) == multiset(s) - multiset{s[n]} == multiset(t[..k] + t[k + 1..]);
  }

  /** Sorting does not change which ranges hold a page, nor how many blocks they give. */
  lemma {:induction false} SamePages(s: seq<Range>, t: seq<Range>, x: nat)
    requires multiset(s) == multiset(t)
    ensures RangesWith(s, x) == RangesWith(t, x)
    decreases |s|
  {
    assert |s| == |multiset(s)| == |multiset(t)| == |t|;
    if s != [] {
      var k := Elsewhere(s, t);
      SamePages(s[..|s| - 1], t[..k] + t[k + 1..], x);
      RangesSplit(t[..k], t[k + 1..], x);
      RangesSplit(t[..k] + [t[k]], t[k + 1..], x);
      assert (t[..k] + [t[k]])[..k] == t[..k];
    }
  }

  lemma {:induction false} SameTotal(s: seq<Range>, t: seq<Range>)
    requires multiset(s) == multiset(t)
    ensures BlockTotal(s) == BlockTotal(t)
    decreases |s|
  {
    assert |s| == |multiset(s)| == |multiset(t)| == |t|;
    if s != [] {
      var k := Elsewhere(s, t);
      SameTotal(s[..|s| - 1], t[..k] + t[k + 1..]);
      TotalSplit(t[..k], t[k + 1..]);
      TotalSplit(t[..k] + [t[k]], t[k + 1..]);
      assert (t[..k] + [t[k]])[..k] == t[..k];
    }
  }

  lemma {:induction false} RangesSplit(a: seq<Range>, b: seq<Range>, x: nat)
    ensures RangesWith(a + b, x) == RangesWith(a, x) + RangesWith(b, x)
  {
    if b == [] {
      assert a + b == a;
    } else {
      RangesSplit(a, b[..|b| - 1], x);
      assert (a + b)[..|a + b| - 1] == a + b[..|b| - 1];
    }
  }
}
