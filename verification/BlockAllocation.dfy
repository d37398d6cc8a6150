/** Appending logical blocks to an inode: the four levels of `diosfs_inode_allocate_new_blocks`. */
module BlockAllocation {
  import opened Prelude
  import opened BlockMap

  /** The inode maps its blocks, and the levels it has not reached have no root yet. */
  ghost predicate Appendable(fs: FileSystem, inode: Inode)
    reads fs, inode
  {
    && fs.Valid()
    && Mapped(fs.disk, fs.owner, inode.number, inode.pointers, inode.blockCount)
    && (inode.pointers.single == 0 || Owns(fs.owner, inode.pointers.single, Meta(inode.number, 1, LEVEL_ONE)))
    && (inode.blockCount <= LEVEL_TWO ==> inode.pointers.double == 0)
    && (inode.blockCount <= LEVEL_THREE ==> inode.pointers.triple == 0)
  }

  /** Blocks marked before keep their owner, and all but the inode's own pointer blocks their contents. */
  ghost predicate OnlyAdds(wasDisk: Disk, wasOwner: seq<Owner>, disk: Disk, owner: seq<Owner>, ino: nat)
  {
    && |wasDisk| == |wasOwner| == |disk| && Extends(wasOwner, owner)
    && forall x | 0 <= x < |disk| && wasOwner[x] != Free && wasOwner[x] != Meta(ino, 1, LEVEL_ONE) ::
         disk[x] == wasDisk[x]
  }

  /** The first `count` logical blocks are found where they were. */
  ghost predicate Stable(wasDisk: Disk, was: Pointers, disk: Disk, p: Pointers, count: nat)
  {
    && |was.direct| == |p.direct| == NUM_BLOCKS_DIRECT && |wasDisk| == |disk|
    && (forall i | 0 <= i < count && i < LEVEL_ONE :: p.direct[i] == was.direct[i])
    && (count > LEVEL_ONE ==>
         p.single == was.single && 0 <= p.single < |disk| && |disk[p.single]| == |wasDisk[p.single]| == N)
    && (count > LEVEL_ONE ==>
         forall i | 0 <= i < N && i < count - LEVEL_ONE :: disk[p.single][i] == wasDisk[p.single][i])
  }

  lemma StableThen(d0: Disk, p0: Pointers, d1: Disk, p1: Pointers, d2: Disk, p2: Pointers, count: nat, more: nat)
    requires Stable(d0, p0, d1, p1, count) && Stable(d1, p1, d2, p2, more) && count <= more
    ensures Stable(d0, p0, d2, p2, count)
  {
  }

  lemma StableLookup(wasDisk: Disk, was: Pointers, disk: Disk, p: Pointers, count: nat, b: nat)
    requires Stable(wasDisk, was, disk, p, count) && b < count <= LEVEL_TWO
    ensures Lookup(disk, p, b) == Lookup(wasDisk, was, b)
  {
  }

  /** How many of `num` new blocks the direct pointers take. */
  function DirectShare(count: nat, num: nat): nat
  {
    if count < LEVEL_ONE then Min(num, LEVEL_ONE - count) else 0
  }

  /** One turn of the direct level's loop. */
  method AddDirect(fs: FileSystem, inode: Inode)
    requires Appendable(fs, inode) && inode.blockCount < LEVEL_ONE && CountClear(fs.used) > 0
    requires inode.blockCount < Limit(fs.limits, inode.number)
    modifies fs`disk, fs`used, fs`owner, inode`pointers, inode`blockCount
    ensures Appendable(fs, inode) && OnlyAdds(old(fs.disk), old(fs.owner), fs.disk, fs.owner, inode.number)
    ensures Stable(old(fs.disk), old(inode.pointers), fs.disk, inode.pointers, old(inode.blockCount))
    ensures inode.blockCount == old(inode.blockCount) + 1 && inode.pointers.single == old(inode.pointers.single)
    ensures CountClear(fs.used) == old(CountClear(fs.used)) - 1 && FirstFit(old(fs.owner), fs.owner)
  {
    var i := inode.blockCount;
    var b := fs.GetFreeBlock(Data(inode.number, i));
    Holds1Stays(old(fs.disk), old(fs.owner), fs.disk, fs.owner, inode.pointers.direct, 0, i, inode.number, 0);
    inode.pointers := inode.pointers.(direct := inode.pointers.direct[i := b]);
    inode.blockCount := i + 1;
  }

  lemma OnlyAddsThen(d0: Disk, o0: seq<Owner>, d1: Disk, o1: seq<Owner>, d2: Disk, o2: seq<Owner>, ino: nat)
    requires OnlyAdds(d0, o0, d1, o1, ino) && OnlyAdds(d1, o1, d2, o2, ino)
    ensures OnlyAdds(d0, o0, d2, o2, ino)
  {
  }

  lemma FirstFitThen(o0: seq<Owner>, o1: seq<Owner>, o2: seq<Owner>)
    requires FirstFit(o0, o1) && FirstFit(o1, o2) && Extends(o1, o2)
    ensures FirstFit(o0, o2)
  {
    forall x | 0 <= x < |o0| && o0[x] == Free && o2[x] != Free ensures FullBelow(o2, x) {
      if o1[x] != Free { assert FullBelow(o1, x); }
    }
  }

  method LevelZero(fs: FileSystem, inode: Inode, num: nat) returns (left: nat)
    requires Appendable(fs, inode) && inode.blockCount <= LEVEL_TWO && num > 0
    requires inode.blockCount + num <= Limit(fs.limits, inode.number)
    requires CountClear(fs.used) >= DirectShare(inode.blockCount, num)
    modifies fs`disk, fs`used, fs`owner, inode`pointers, inode`blockCount
    ensures Appendable(fs, inode) && OnlyAdds(old(fs.disk), old(fs.owner), fs.disk, fs.owner, inode.number)
    ensures Stable(old(fs.disk), old(inode.pointers), fs.disk, inode.pointers, old(inode.blockCount))
    ensures inode.blockCount == old(inode.blockCount) + num - left
    ensures left > 0 ==> inode.blockCount >= LEVEL_ONE
    ensures left == num - DirectShare(old(inode.blockCount), num)
    ensures CountClear(fs.used) == old(CountClear(fs.used)) - (num - left)
    ensures inode.pointers.single == old(inode.pointers.single) && FirstFit(old(fs.owner), fs.owner)
  {
    left := num;
    while inode.blockCount < NUM_BLOCKS_DIRECT
      invariant Appendable(fs, inode) && OnlyAdds(old(fs.disk), old(fs.owner), fs.disk, fs.owner, inode.number)
      invariant Stable(old(fs.disk), old(inode.pointers), fs.disk, inode.pointers, old(inode.blockCount))
      invariant 0 < left <= num && inode.blockCount == old(inode.blockCount) + num - left
      invariant old(inode.blockCount) <= LEVEL_ONE ==> inode.blockCount <= LEVEL_ONE
      invariant old(inode.blockCount) >= LEVEL_ONE ==> left == num
      invariant CountClear(fs.used) == old(CountClear(fs.used)) - (num - left)
      invariant inode.pointers.single == old(inode.pointers.single) && FirstFit(old(fs.owner), fs.owner)
      decreases NUM_BLOCKS_DIRECT - inode.blockCount
    {
      ghost var disk, owner, p, count := fs.disk, fs.owner, inode.pointers, inode.blockCount;
      AddDirect(fs, inode);
      OnlyAddsThen(old(fs.disk), old(fs.owner), disk, owner, fs.disk, fs.owner, inode.number);
      StableThen(old(fs.disk), old(inode.pointers), disk, p, fs.disk, inode.pointers, old(inode.blockCount), count);
      FirstFitThen(old(fs.owner), owner, fs.owner);
      left := left - 1;
      if left == 0 {
        return;
      }
    }
  }

  /** The single level after blocks were added behind the `count` there were. */
  lemma SingleExtends(wasDisk: Disk, wasOwner: seq<Owner>, was: Pointers, disk: Disk, owner: seq<Owner>, p: Pointers,
                      ino: nat, count: nat, num: nat)
    requires Mapped(wasDisk, wasOwner, ino, was, count) && LEVEL_ONE <= count && count + num <= LEVEL_TWO
    requires Extends(wasOwner, owner) && |wasDisk| == |disk| == |owner| && p == was.(single := p.single)
    requires Owns(owner, p.single, Meta(ino, 1, LEVEL_ONE)) && |disk[p.single]| == |wasDisk[p.single]| == N
    requires count > LEVEL_ONE ==> p.single == was.single
    requires forall x | 0 <= x < |disk| && x != p.single :: disk[x] == wasDisk[x]
    requires wasOwner[p.single] == Free || wasOwner[p.single] == Meta(ino, 1, LEVEL_ONE)
    requires Holds1(owner, disk[p.single], count - LEVEL_ONE, num, ino, count)
    requires forall i | 0 <= i < count - LEVEL_ONE :: disk[p.single][i] == wasDisk[p.single][i]
    ensures Mapped(disk, owner, ino, p, count + num) && Stable(wasDisk, was, disk, p, count)
    ensures OnlyAdds(wasDisk, wasOwner, disk, owner, ino)
  {
    Holds1Stays(wasDisk, wasOwner, disk, owner, was.direct, 0, LEVEL_ONE, ino, 0);
    if count > LEVEL_ONE {
      Holds1Stays(wasDisk, wasOwner, disk, owner, wasDisk[p.single], 0, count - LEVEL_ONE, ino, LEVEL_ONE);
    }
    Holds1Join(owner, disk[p.single], count - LEVEL_ONE, num, ino, LEVEL_ONE);
  }

  method LevelOne(fs: FileSystem, inode: Inode, num: nat) returns (left: nat)
    requires Appendable(fs, inode) && LEVEL_ONE <= inode.blockCount <= LEVEL_TWO && num > 0
    requires inode.blockCount + num <= Limit(fs.limits, inode.number)
    requires CountClear(fs.used) >= Min(num, LEVEL_TWO - inode.blockCount) +
      (if inode.pointers.single == 0 then 1 else 0)
    modifies fs`disk, fs`used, fs`owner, inode`pointers, inode`blockCount
    ensures Appendable(fs, inode) && OnlyAdds(old(fs.disk), old(fs.owner), fs.disk, fs.owner, inode.number)
    ensures Stable(old(fs.disk), old(inode.pointers), fs.disk, inode.pointers, old(inode.blockCount))
    ensures left == num - Min(num, LEVEL_TWO - old(inode.blockCount))
    ensures inode.blockCount == old(inode.blockCount) + num - left
    ensures CountClear(fs.used) == old(CountClear(fs.used)) - (num - left) - (if old(inode.pointers.single) == 0 then 1
      else 0)
  {
    var numAllocated := inode.blockCount - NUM_BLOCKS_DIRECT;
    var numInIndirect := if num + numAllocated > N then N - numAllocated else num;
    ghost var count, p := inode.blockCount, inode.pointers;
    var single := fs.AllocateSingle(inode, numAllocated, numInIndirect, false, 0, count);
    inode.blockCount := inode.blockCount + numInIndirect;
    left := num - numInIndirect;
    SingleExtends(old(fs.disk), old(fs.owner), p, fs.disk, fs.owner, inode.pointers, inode.number, count,
      numInIndirect);
  }

  method LevelTwo(fs: FileSystem, inode: Inode, num: nat) returns (left: nat)
    requires Appendable(fs, inode) && inode.blockCount == LEVEL_TWO && num > 0
    requires inode.blockCount + num <= Limit(fs.limits, inode.number)
    requires CountClear(fs.used) >= Cost2(Min(num, N2))
    modifies fs`disk, fs`used, fs`owner, inode`pointers, inode`blockCount
    ensures Appendable(fs, inode) && OnlyAdds(old(fs.disk), old(fs.owner), fs.disk, fs.owner, inode.number)
    ensures Stable(old(fs.disk), old(inode.pointers), fs.disk, inode.pointers, old(inode.blockCount))
    ensures left == num - Min(num, N2)
    ensures inode.blockCount == old(inode.blockCount) + num - left
    ensures CountClear(fs.used) == old(CountClear(fs.used)) - Cost2(Min(num, N2))
  {
    var numInIndirect := if num > N2 then N2 else num;
    ghost var p, disk, owner := inode.pointers, fs.disk, fs.owner;
    var double := fs.AllocateDouble(inode, numInIndirect, false, LEVEL_TWO);
    OthersStayMapped(disk, owner, fs.disk, fs.owner, inode.number, p, LEVEL_TWO);
    inode.blockCount := inode.blockCount + numInIndirect;
    left := num - numInIndirect;
  }

  method LevelThree(fs: FileSystem, inode: Inode, num: nat) returns (left: nat)
    requires Appendable(fs, inode) && inode.blockCount == LEVEL_THREE && 0 < num <= N3
    requires inode.blockCount + num <= Limit(fs.limits, inode.number)
    requires CountClear(fs.used) >= Cost3(num)
    modifies fs`disk, fs`used, fs`owner, inode`pointers, inode`blockCount
    ensures Appendable(fs, inode) && OnlyAdds(old(fs.disk), old(fs.owner), fs.disk, fs.owner, inode.number)
    ensures Stable(old(fs.disk), old(inode.pointers), fs.disk, inode.pointers, old(inode.blockCount))
    ensures left == 0 && inode.blockCount == old(inode.blockCount) + num
    ensures CountClear(fs.used) == old(CountClear(fs.used)) - Cost3(num)
  {
    var numInIndirect := if num > N3 then N3 else num;
    ghost var p, disk, owner := inode.pointers, fs.disk, fs.owner;
    var triple := fs.AllocateTriple(inode, numInIndirect, LEVEL_THREE);
    OthersStayMapped(disk, owner, fs.disk, fs.owner, inode.number, p, LEVEL_THREE);
    inode.blockCount := inode.blockCount + numInIndirect;
    left := num - numInIndirect;
  }

  /** Blocks marked by appending `num` blocks to an inode that has `count`. */
  function Cost(count: nat, hasSingle: bool, num: nat): nat
    requires count <= LEVEL_TWO
  {
    var direct := DirectShare(count, num);
    if num == direct then direct else direct + CostFromOne(count + direct, hasSingle, num - direct)
  }

  function CostFromOne(count: nat, hasSingle: bool, num: nat): nat
    requires LEVEL_ONE <= count <= LEVEL_TWO
  {
    var single := Min(num, LEVEL_TWO - count);
    single + (if hasSingle then 0 else 1) + if num == single then 0 else CostFromTwo(num - single)
  }

  function CostFromTwo(num: nat): nat
  {
    Cost2(Min(num, N2)) + if num <= N2 then 0 else Cost3(num - N2)
  }

  /** What an append costs by the level it starts at. */
  lemma CostAt(count: nat, hasSingle: bool, num: nat)
    requires count <= LEVEL_TWO && num > 0
    ensures count >= LEVEL_ONE ==> Cost(count, hasSingle, num) == CostFromOne(count, hasSingle, num)
    ensures count == LEVEL_TWO && hasSingle ==> Cost(count, hasSingle, num) == CostFromTwo(num)
  {
  }

  /** What remains to be paid behind the direct level. */
  lemma CostRest(count: nat, hasSingle: bool, num: nat) returns (rest: nat)
    requires count <= LEVEL_TWO && num > 0
    ensures Cost(count, hasSingle, num) == DirectShare(count, num) + rest &&
      (num == DirectShare(count, num) ==> rest == 0)
    ensures var direct := DirectShare(count, num);
      num > direct ==> count + direct >= LEVEL_ONE && rest == CostFromOne(count + direct, hasSingle, num - direct)
  {
    var direct := DirectShare(count, num);
    rest := if num == direct then 0 else CostFromOne(count + direct, hasSingle, num - direct);
  }

  method FromLevelTwo(fs: FileSystem, inode: Inode, num: nat)
    requires Appendable(fs, inode) && inode.blockCount == LEVEL_TWO && 0 < num <= N2 + N3
    requires inode.blockCount + num <= Limit(fs.limits, inode.number)
    requires CountClear(fs.used) >= CostFromTwo(num)
    modifies fs`disk, fs`used, fs`owner, inode`pointers, inode`blockCount
    ensures Appendable(fs, inode) && OnlyAdds(old(fs.disk), old(fs.owner), fs.disk, fs.owner, inode.number)
    ensures Stable(old(fs.disk), old(inode.pointers), fs.disk, inode.pointers, old(inode.blockCount))
    ensures inode.blockCount == old(inode.blockCount) + num
    ensures CountClear(fs.used) == old(CountClear(fs.used)) - CostFromTwo(num)
  {
    var left := LevelTwo(fs, inode, num);
    if left > 0 {
      ghost var disk, owner, p, count := fs.disk, fs.owner, inode.pointers, inode.blockCount;
      left := LevelThree(fs, inode, left);
      OnlyAddsThen(old(fs.disk), old(fs.owner), disk, owner, fs.disk, fs.owner, inode.number);
      StableThen(old(fs.disk), old(inode.pointers), disk, p, fs.disk, inode.pointers, old(inode.blockCount), count);
    }
  }

  method FromLevelOne(fs: FileSystem, inode: Inode, num: nat)
    requires Appendable(fs, inode) && LEVEL_ONE <= inode.blockCount <= LEVEL_TWO && num > 0
    requires inode.blockCount + num <= MAX_LOGICAL && inode.blockCount + num <= Limit(fs.limits, inode.number)
    requires CountClear(fs.used) >= CostFromOne(inode.blockCount, inode.pointers.single != 0, num)
    modifies fs`disk, fs`used, fs`owner, inode`pointers, inode`blockCount
    ensures Appendable(fs, inode) && OnlyAdds(old(fs.disk), old(fs.owner), fs.disk, fs.owner, inode.number)
    ensures Stable(old(fs.disk), old(inode.pointers), fs.disk, inode.pointers, old(inode.blockCount))
    ensures inode.blockCount == old(inode.blockCount) + num
    ensures CountClear(fs.used) == old(CountClear(fs.used)) - CostFromOne(old(inode.blockCount),
      old(inode.pointers.single) != 0, num)
  {
    var left := LevelOne(fs, inode, num);
    if left > 0 {
      ghost var disk, owner, p, count := fs.disk, fs.owner, inode.pointers, inode.blockCount;
      FromLevelTwo(fs, inode, left);
      OnlyAddsThen(old(fs.disk), old(fs.owner), disk, owner, fs.disk, fs.owner, inode.number);
      StableThen(old(fs.disk), old(inode.pointers), disk, p, fs.disk, inode.pointers, old(inode.blockCount), count);
    }
  }

  method FromLevelZero(fs: FileSystem, inode: Inode, num: nat)
    requires Appendable(fs, inode) && inode.blockCount <= LEVEL_TWO && num > 0
    requires inode.blockCount + num <= MAX_LOGICAL && inode.blockCount + num <= Limit(fs.limits, inode.number)
    requires CountClear(fs.used) >= Cost(inode.blockCount, inode.pointers.single != 0, num)
    modifies fs`disk, fs`used, fs`owner, inode`pointers, inode`blockCount
    ensures Appendable(fs, inode) && OnlyAdds(old(fs.disk), old(fs.owner), fs.disk, fs.owner, inode.number)
    ensures Stable(old(fs.disk), old(inode.pointers), fs.disk, inode.pointers, old(inode.blockCount))
    ensures inode.blockCount == old(inode.blockCount) + num
    ensures CountClear(fs.used) == old(CountClear(fs.used)) - Cost(old(inode.blockCount),
      old(inode.pointers.single) != 0, num)
    ensures inode.blockCount <= LEVEL_ONE ==> FirstFit(old(fs.owner), fs.owner)
  {
    ghost var rest := CostRest(inode.blockCount, inode.pointers.single != 0, num);
    DirectThenFurther(fs, inode, num, rest);
  }

  /** The direct level and then the others, which take `rest` blocks. */
  method DirectThenFurther(fs: FileSystem, inode: Inode, num: nat, ghost rest: nat)
    requires Appendable(fs, inode) && inode.blockCount <= LEVEL_TWO && num > 0
    requires inode.blockCount + num <= MAX_LOGICAL && inode.blockCount + num <= Limit(fs.limits, inode.number)
    requires var count, direct := inode.blockCount, DirectShare(inode.blockCount, num);
      && CountClear(fs.used) >= direct + rest && (num > direct ==> count + direct >= LEVEL_ONE)
      && rest == if num == direct then 0 else CostFromOne(count + direct, inode.pointers.single != 0, num - direct)
    modifies fs`disk, fs`used, fs`owner, inode`pointers, inode`blockCount
    ensures Appendable(fs, inode) && OnlyAdds(old(fs.disk), old(fs.owner), fs.disk, fs.owner, inode.number)
    ensures Stable(old(fs.disk), old(inode.pointers), fs.disk, inode.pointers, old(inode.blockCount))
    ensures inode.blockCount == old(inode.blockCount) + num
    ensures CountClear(fs.used) == old(CountClear(fs.used)) - DirectShare(old(inode.blockCount), num) - rest
    ensures inode.blockCount <= LEVEL_ONE ==> FirstFit(old(fs.owner), fs.owner)
  {
    var left := LevelZero(fs, inode, num);
    FurtherLevels(fs, inode, left, rest, old(fs.disk), old(fs.owner), old(inode.pointers), old(inode.blockCount));
  }

  /** The levels behind the direct one, if blocks are left, for an append that started from `wasDisk`, `wasOwner`, `was`
      and `count`. */
  method FurtherLevels(fs: FileSystem, inode: Inode, num: nat, ghost cost: nat, ghost wasDisk: Disk,
                       ghost wasOwner: seq<Owner>, ghost was: Pointers, ghost count: nat)
    requires Appendable(fs, inode) && (num > 0 ==> LEVEL_ONE <= inode.blockCount <= LEVEL_TWO)
    requires inode.blockCount + num <= MAX_LOGICAL && inode.blockCount + num <= Limit(fs.limits, inode.number)
    requires cost == (if num == 0 then 0 else CostFromOne(inode.blockCount, inode.pointers.single != 0, num))
    requires cost <= CountClear(fs.used) && count <= inode.blockCount
    requires OnlyAdds(wasDisk, wasOwner, fs.disk, fs.owner, inode.number)
    requires Stable(wasDisk, was, fs.disk, inode.pointers, count)
    modifies fs`disk, fs`used, fs`owner, inode`pointers, inode`blockCount
    ensures Appendable(fs, inode) && OnlyAdds(wasDisk, wasOwner, fs.disk, fs.owner, inode.number)
    ensures Stable(wasDisk, was, fs.disk, inode.pointers, count) && inode.blockCount == old(inode.blockCount) + num
    ensures CountClear(fs.used) == old(CountClear(fs.used)) - cost && (num == 0 ==> fs.owner == old(fs.owner))
  {
    if num > 0 {
      FromLevelOne(fs, inode, num);
      OnlyAddsThen(wasDisk, wasOwner, old(fs.disk), old(fs.owner), fs.disk, fs.owner, inode.number);
      StableThen(wasDisk, was, old(fs.disk), old(inode.pointers), fs.disk, inode.pointers, count,
        old(inode.blockCount));
    }
  }

  const BLOCK_SIZE: nat := 1024
  const MAX_BLOCKS_IN_INODE: nat := NUM_BLOCKS_DIRECT * BLOCK_SIZE * N3

  datatype Status = Success | Failure

  /** The level at which an append starts: it is read off the size, not off the block count. */
  function StartLevel(size: nat): nat
    requires (size + BLOCK_SIZE - 1) / BLOCK_SIZE < MAX_LOGICAL
  {
    if size % BLOCK_SIZE == 0 then IndicesFor(size / BLOCK_SIZE).level else IndicesFor(size / BLOCK_SIZE + 1).level
  }

  function FirstOfLevel(level: nat): nat
  {
    match level case 0 => 0 case 1 => LEVEL_ONE case 2 => LEVEL_TWO case _ => LEVEL_THREE
  }

  /** The levels of an append, from the one that the size says on. */
  method AppendFrom(fs: FileSystem, inode: Inode, num: nat)
    requires Appendable(fs, inode) && inode.blockCount <= LEVEL_TWO && num > 0
    requires inode.blockCount + num <= MAX_LOGICAL && inode.blockCount + num <= Limit(fs.limits, inode.number)
    requires (inode.size + BLOCK_SIZE - 1) / BLOCK_SIZE < MAX_LOGICAL &&
      FirstOfLevel(StartLevel(inode.size)) <= inode.blockCount
    requires CountClear(fs.used) >= Cost(inode.blockCount, inode.pointers.single != 0, num)
    modifies fs`disk, fs`used, fs`owner, inode`pointers, inode`blockCount
    ensures Appendable(fs, inode) && OnlyAdds(old(fs.disk), old(fs.owner), fs.disk, fs.owner, inode.number)
    ensures Stable(old(fs.disk), old(inode.pointers), fs.disk, inode.pointers, old(inode.blockCount))
    ensures inode.blockCount == old(inode.blockCount) + num
    ensures CountClear(fs.used) == old(CountClear(fs.used)) - Cost(old(inode.blockCount),
      old(inode.pointers.single) != 0, num)
    ensures inode.blockCount <= LEVEL_ONE ==> FirstFit(old(fs.owner), fs.owner)
  {
    CostAt(inode.blockCount, inode.pointers.single != 0, num);
    match StartLevel(inode.size) {
      case 0 => FromLevelZero(fs, inode, num);
      case 1 => FromLevelOne(fs, inode, num);
      case _ => FromLevelTwo(fs, inode, num);
    }
  }

  lemma LimitRaised(owner: seq<Owner>, limits: map<nat, nat>, ino: nat, num: nat)
    requires Limited(owner, limits) && Limit(limits, ino) <= num
    ensures Limited(owner, limits[ino := num])
  {
    forall x | 0 <= x < |owner| && owner[x].Data? ensures owner[x].logical < Limit(limits[ino := num], owner[x].ino) {
      assert owner[x].logical < Limit(limits, owner[x].ino);
    }
  }

  /** The limit of an inode is raised, or set for an inode without blocks. */
  ghost method SetLimit(fs: FileSystem, ino: nat, num: nat)
    requires fs.Valid() && (Limit(fs.limits, ino) <= num || Unclaimed(fs.owner, ino))
    modifies fs`limits
    ensures fs.Valid() && fs.limits == old(fs.limits)[ino := num]
  {
    if Limit(fs.limits, ino) <= num {
      LimitRaised(fs.owner, fs.limits, ino, num);
    }
    fs.limits := fs.limits[ino := num];
  }

  /** Appends `num` logical blocks. The inode may have any number of blocks up to the end of the single
      level, so long as its size does not already point past its last block. */
  method AllocateNewBlocks(fs: FileSystem, inode: Inode, num: nat) returns (status: Status)
    requires Appendable(fs, inode) && inode.blockCount <= LEVEL_TWO && num > 0
    requires inode.blockCount + num <= MAX_LOGICAL && inode.blockCount + num <= Limit(fs.limits, inode.number)
    requires (inode.size + BLOCK_SIZE - 1) / BLOCK_SIZE < MAX_LOGICAL &&
      FirstOfLevel(StartLevel(inode.size)) <= inode.blockCount
    requires CountClear(fs.used) >= Cost(inode.blockCount, inode.pointers.single != 0, num)
    modifies fs`disk, fs`used, fs`owner, inode`pointers, inode`blockCount
    ensures Appendable(fs, inode) && OnlyAdds(old(fs.disk), old(fs.owner), fs.disk, fs.owner, inode.number)
    ensures Stable(old(fs.disk), old(inode.pointers), fs.disk, inode.pointers, old(inode.blockCount))
    ensures status == Failure <==> inode.isDirectory && num + inode.size / BLOCK_SIZE > NUM_BLOCKS_DIRECT
    ensures status == Failure ==>
      inode.blockCount == old(inode.blockCount) && inode.pointers == old(inode.pointers) && fs.disk == old(fs.disk) &&
      fs.owner == old(fs.owner)
    ensures status == Success ==> inode.blockCount == old(inode.blockCount) + num
    ensures status == Success ==>
      CountClear(fs.used) == old(CountClear(fs.used)) - Cost(old(inode.blockCount), old(inode.pointers.single) != 0,
      num)
    ensures status == Success && inode.blockCount <= LEVEL_ONE ==> FirstFit(old(fs.owner), fs.owner)
  {
    RefusedIs(inode.isDirectory, inode.size, num);
    if Refused(inode.isDirectory, inode.size, num) {
      return Failure;
    }
    AppendFrom(fs, inode, num);
    status := Success;
  }

  /** An append is refused that would take a directory beyond its direct blocks, or any file beyond the largest size. */
  predicate Refused(isDirectory: bool, size: nat, num: nat)
  {
    || (isDirectory && num + size / BLOCK_SIZE > NUM_BLOCKS_DIRECT)
    || num + size / BLOCK_SIZE > MAX_BLOCKS_IN_INODE
  }

  lemma RefusedIs(isDirectory: bool, size: nat, num: nat)
    requires num <= MAX_LOGICAL && (size + BLOCK_SIZE - 1) / BLOCK_SIZE < MAX_LOGICAL
    ensures Refused(isDirectory, size, num) <==> isDirectory && num + size / BLOCK_SIZE > NUM_BLOCKS_DIRECT
  {
  }

  /** No block belongs to inode `number`. */
  ghost predicate Unclaimed(owner: seq<Owner>, number: nat)
  {
    forall x | 0 <= x < |owner| && (owner[x].Data? || owner[x].Meta?) :: owner[x].ino != number
  }

  /** Allocation and lookup agree, said in terms of lookup alone: every logical block resolves to a block
      that was clear before and is marked now; different logical blocks resolve to different blocks; and
      none of them is read as a pointer block by any lookup. */
  ghost predicate Agrees(disk: Disk, p: Pointers, num: nat, wasUsed: seq<bool>, used: seq<bool>)
    requires num <= MAX_LOGICAL && |p.direct| == NUM_BLOCKS_DIRECT
  {
    && |wasUsed| == |used|
    && (forall b | 0 <= b < num :: 0 <= Lookup(disk, p, b) < |used|)
    && (forall b | 0 <= b < num :: !wasUsed[Lookup(disk, p, b)] && used[Lookup(disk, p, b)])
    && (forall b, c | 0 <= b < c < num :: Lookup(disk, p, b) != Lookup(disk, p, c))
    && (forall b, c | 0 <= b < num && 0 <= c < num :: Lookup(disk, p, b) !in LookupPath(disk, p, c))
  }

  lemma MappedAgrees(disk: Disk, owner: seq<Owner>, number: nat, p: Pointers, num: nat, wasOwner: seq<Owner>,
                     wasUsed: seq<bool>, used: seq<bool>)
    requires Mapped(disk, owner, number, p, num) && (forall x | 0 <= x < |disk| :: |disk[x]| == N)
    requires Extends(wasOwner, owner) && Unclaimed(wasOwner, number)
    requires |used| == |owner| && forall x | 0 <= x < |owner| :: used[x] <==> owner[x] != Free
    requires |wasUsed| == |owner| && forall x | 0 <= x < |owner| :: wasUsed[x] <==> wasOwner[x] != Free
    ensures Agrees(disk, p, num, wasUsed, used)
  {
    forall b | 0 <= b < num
      ensures Owns(owner, Lookup(disk, p, b), Data(number, b))
      ensures forall m | m in LookupPath(disk, p, b) :: 0 <= m < |owner| && owner[m].Meta?
    {
      LookupFindsData(disk, owner, number, p, num, b);
    }
    forall b | 0 <= b < num
      ensures !wasUsed[Lookup(disk, p, b)] && used[Lookup(disk, p, b)]
    {
      assert Owns(owner, Lookup(disk, p, b), Data(number, b));
    }
    forall b, c | 0 <= b < c < num
      ensures Lookup(disk, p, b) != Lookup(disk, p, c)
    {
      assert Owns(owner, Lookup(disk, p, b), Data(number, b)) && Owns(owner, Lookup(disk, p, c), Data(number, c));
    }
    forall b, c | 0 <= b < num && 0 <= c < num
      ensures Lookup(disk, p, b) !in LookupPath(disk, p, c)
    {
      assert Owns(owner, Lookup(disk, p, b), Data(number, b));
    }
  }

  /** One allocation to a fresh inode, for every count up to the four levels' total. */
  method AllocateFresh(fs: FileSystem, number: nat, num: nat) returns (inode: Inode)
    requires fs.Valid() && Unclaimed(fs.owner, number)
    requires 0 < num <= MAX_LOGICAL && CountClear(fs.used) >= Cost(0, false, num)
    modifies fs`disk, fs`used, fs`owner, fs`limits
    ensures fresh(inode) && Appendable(fs, inode) && inode.blockCount == num && inode.number == number
    ensures Agrees(fs.disk, inode.pointers, num, old(fs.used), fs.used)
    ensures CountClear(fs.used) == old(CountClear(fs.used)) - Cost(0, false, num)
    ensures OnlyAdds(old(fs.disk), old(fs.owner), fs.disk, fs.owner, number)
    ensures num <= LEVEL_ONE ==> FirstFit(old(fs.owner), fs.owner)
  {
    inode := new Inode(number, false);
    ghost var was := fs.owner;
    SetLimit(fs, number, num);
    var status := AllocateNewBlocks(fs, inode, num);
    assert Extends(was, fs.owner);
    MappedAgrees(fs.disk, fs.owner, number, inode.pointers, num, old(fs.owner), old(fs.used), fs.used);
  }
}
