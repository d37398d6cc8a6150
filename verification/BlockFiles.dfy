/** Files that are created, extended, written and removed in any order: what one file's operations leave of the others,
    and that every run does what it would do on a table of flat files. */
module BlockFiles {
  import opened Prelude
  import opened BlockMap
  import opened BlockAllocation
  import opened BlockFree

  /** Every block of `ino` stays with it and keeps its contents. */
  ghost predicate Intact(ino: nat, disk: Disk, owner: seq<Owner>, disk': Disk, owner': seq<Owner>)
  {
    && |disk| == |disk'| == |owner| == |owner'|
    && forall x | 0 <= x < |owner| && BelongsTo(owner[x], ino) :: owner'[x] == owner[x] && disk'[x] == disk[x]
  }

  lemma OnlyAddsIntact(wasDisk: Disk, wasOwner: seq<Owner>, disk: Disk, owner: seq<Owner>, ino: nat, other: nat)
    requires OnlyAdds(wasDisk, wasOwner, disk, owner, ino) && other != ino
    ensures Intact(other, wasDisk, wasOwner, disk, owner)
  {
  }

  lemma RemovalIntact(disk: Disk, used: seq<bool>, owner: seq<Owner>, ino: nat, p: Pointers, num: nat, disk': Disk,
                      used': seq<bool>, other: nat)
    requires Mapped(disk, owner, ino, p, num) && Consistent(disk, used, owner) && other != ino
    requires GivenBack(Blocks(disk, p, num), disk, used, disk', used')
    ensures Intact(other, disk, owner, disk', Released(owner, Blocks(disk, p, num), ino))
  {
    var blocks := Blocks(disk, p, num);
    forall x | 0 <= x < |owner| && BelongsTo(owner[x], other) ensures x !in blocks {
      if x in blocks {
        BlocksLabelled(disk, owner, ino, p, num, x);
      }
    }
  }

  /** A file whose blocks are intact is found where it was and reads as it did. */
  lemma IntactReads(disk: Disk, owner: seq<Owner>, disk': Disk, owner': seq<Owner>, ino: nat, p: Pointers, num: nat,
                    b: nat)
    requires Mapped(disk, owner, ino, p, num) && Intact(ino, disk, owner, disk', owner') && b < num
    requires (forall x | 0 <= x < |disk| :: |disk[x]| == N && |disk'[x]| == N)
    ensures 0 <= Lookup(disk, p, b) < |disk| && Lookup(disk', p, b) == Lookup(disk, p, b)
    ensures disk'[Lookup(disk', p, b)] == disk[Lookup(disk, p, b)]
  {
    OthersStayMapped(disk, owner, disk', owner', ino, p, num);
    LookupFindsData(disk, owner, ino, p, num, b);
    LookupFindsData(disk', owner', ino, p, num, b);
  }

  /** No block serves two files, neither for data nor for pointers. */
  lemma FilesApart(disk: Disk, owner: seq<Owner>, a: nat, p: Pointers, num: nat, b: nat, q: Pointers, count: nat,
                   i: nat, j: nat)
    requires Mapped(disk, owner, a, p, num) && Mapped(disk, owner, b, q, count) && a != b && i < num && j < count
    requires forall x | 0 <= x < |disk| :: |disk[x]| == N
    ensures ({Lookup(disk, p, i)} + LookupPath(disk, p, i)) !! ({Lookup(disk, q, j)} + LookupPath(disk, q, j))
  {
    LookupFindsData(disk, owner, a, p, num, i);
    LookupFindsData(disk, owner, b, q, count, j);
  }

  /** An inode in the inode table, and all inodes in use with the blocks they speak of. */
  datatype File = File(isDirectory: bool, pointers: Pointers, blockCount: nat, size: nat)

  datatype State = State(disk: Disk, owner: seq<Owner>, files: map<nat, File>)

  /** The inode maps its blocks, and has a pointer block exactly where an allocation expects one. */
  ghost predicate Placed(s: State, n: nat)
    requires n in s.files
  {
    var f := s.files[n];
    && Mapped(s.disk, s.owner, n, f.pointers, f.blockCount)
    && (f.pointers.single == 0 || Owns(s.owner, f.pointers.single, Meta(n, 1, LEVEL_ONE)))
    && (f.blockCount <= LEVEL_TWO ==> f.pointers.double == 0)
    && (f.blockCount <= LEVEL_THREE ==> f.pointers.triple == 0)
  }

  ghost function BlocksOf(s: State, n: nat): seq<int>
    requires n in s.files && Placed(s, n)
  {
    Blocks(s.disk, s.files[n].pointers, s.files[n].blockCount)
  }

  ghost predicate AllPlaced(s: State)
  {
    forall n {:trigger Placed(s, n)} | n in s.files :: Placed(s, n)
  }

  /** Every file but those `named` is still there, says what it said, and has its blocks as they were. */
  ghost predicate Spared(s: State, s': State, named: set<nat>)
  {
    forall n | n in s.files && n !in named ::
      n in s'.files && s'.files[n] == s.files[n] && Intact(n, s.disk, s.owner, s'.disk, s'.owner)
  }

  lemma SparedThen(s: State, m: State, s': State, a: set<nat>, b: set<nat>)
    requires Spared(s, m, a) && Spared(m, s', b)
    ensures Spared(s, s', a + b)
  {
    forall n | n in s.files && n !in a + b ensures Intact(n, s.disk, s.owner, s'.disk, s'.owner) {
      assert Intact(n, m.disk, m.owner, s'.disk, s'.owner);
    }
  }

  /** Files that an operation on `ino` spares stay placed. */
  lemma SparedPlaced(s: State, s': State, ino: nat)
    requires AllPlaced(s) && Spared(s, s', {ino}) && s'.files.Keys <= s.files.Keys + {ino}
    requires ino in s'.files ==> Placed(s', ino)
    ensures AllPlaced(s')
  {
    forall n | n in s'.files && n != ino ensures Placed(s', n) {
      assert Placed(s, n) && Intact(n, s.disk, s.owner, s'.disk, s'.owner);
      OthersStayMapped(s.disk, s.owner, s'.disk, s'.owner, n, s.files[n].pointers, s.files[n].blockCount);
    }
  }

  lemma AppendSpares(s: State, s': State, ino: nat)
    requires OnlyAdds(s.disk, s.owner, s'.disk, s'.owner, ino)
    requires forall n | n in s.files && n != ino :: n in s'.files && s'.files[n] == s.files[n]
    ensures Spared(s, s', {ino})
  {
    forall n | n in s.files && n != ino ensures Intact(n, s.disk, s.owner, s'.disk, s'.owner) {
      OnlyAddsIntact(s.disk, s.owner, s'.disk, s'.owner, ino, n);
    }
  }

  lemma RemovalSpares(s: State, used: seq<bool>, s': State, used': seq<bool>, ino: nat)
    requires AllPlaced(s) && Consistent(s.disk, used, s.owner) && ino in s.files
    requires GivenBack(BlocksOf(s, ino), s.disk, used, s'.disk, used') &&
      s'.owner == Released(s.owner, BlocksOf(s, ino), ino)
    requires s'.files == s.files - {ino}
    ensures Spared(s, s', {ino}) && AllPlaced(s')
  {
    assert Placed(s, ino);
    forall n | n in s.files && n != ino ensures Intact(n, s.disk, s.owner, s'.disk, s'.owner) {
      RemovalIntact(s.disk, used, s.owner, ino, s.files[ino].pointers, s.files[ino].blockCount, s'.disk, used', n);
    }
    SparedPlaced(s, s', ino);
  }

  datatype Op =
    | Create(ino: nat, isDirectory: bool)
    | Append(ino: nat, num: nat)
    | Write(ino: nat, b: nat, block: seq<int>)
    | SetSize(ino: nat, size: nat)
    | Remove(ino: nat)

  /** The inodes that a run names. */
  ghost function Named(ops: seq<Op>): set<nat>
  {
    if ops == [] then {} else {ops[0].ino} + Named(ops[1..])
  }

  // ------------------------------------------------------------------ flat files

  /** A file as its user sees it: a sequence of blocks. */
  datatype FlatFile = FlatFile(isDirectory: bool, size: nat, blocks: seq<seq<int>>)

  type Flat = map<nat, FlatFile>

  predicate Possible(m: Flat, op: Op)
  {
    (op.Create? || op.ino in m) && (op.Write? ==> op.b < |m[op.ino].blocks|)
  }

  /** What an operation does to flat files. New blocks hold zeros; a directory is not extended beyond its direct
      blocks. */
  ghost function Apply(m: Flat, op: Op): Flat
    requires Possible(m, op)
  {
    match op
    case Create(ino, isDirectory) => m[ino := FlatFile(isDirectory, 0, [])]
    case Append(ino, num) =>
      var f := m[ino];
      if f.isDirectory && num + f.size / BLOCK_SIZE > NUM_BLOCKS_DIRECT then m
      else m[ino := f.(blocks := f.blocks + seq(num, _ => Zeros()))]
    case Write(ino, b, block) => m[ino := m[ino].(blocks := m[ino].blocks[b := block])]
    case SetSize(ino, size) => m[ino := m[ino].(size := size)]
    case Remove(ino) => m - {ino}
  }

  /** The contents of block `x`. */
  ghost function ContentAt(disk: Disk, x: int): seq<int>
  {
    if 0 <= x < |disk| then disk[x] else []
  }

  ghost function Contents(disk: Disk, p: Pointers, num: nat): (s: seq<seq<int>>)
    requires num <= MAX_LOGICAL && |p.direct| == NUM_BLOCKS_DIRECT
    ensures |s| == num && forall b | 0 <= b < num :: s[b] == ContentAt(disk, Lookup(disk, p, b))
  {
    seq(num, b requires 0 <= b < num => ContentAt(disk, Lookup(disk, p, b)))
  }

  ghost function FlatAt(s: State, n: nat): FlatFile
    requires n in s.files && Placed(s, n)
  {
    var f := s.files[n];
    FlatFile(f.isDirectory, f.size, Contents(s.disk, f.pointers, f.blockCount))
  }

  ghost function FlatOf(s: State): (m: Flat)
    requires AllPlaced(s)
    ensures m.Keys == s.files.Keys && forall n | n in m :: Placed(s, n) && m[n] == FlatAt(s, n)
  {
    map n | n in s.files :: FlatAt(s, n)
  }

  ghost predicate WholeBlocks(disk: Disk)
  {
    forall x | 0 <= x < |disk| :: |disk[x]| == N
  }

  /** A spared file reads as it did. */
  lemma SparedReads(s: State, s': State, named: set<nat>, n: nat)
    requires AllPlaced(s) && AllPlaced(s') && Spared(s, s', named) && n in s.files && n !in named
    requires WholeBlocks(s.disk) && WholeBlocks(s'.disk)
    ensures n in s'.files && Placed(s, n) && Placed(s', n) && FlatAt(s', n) == FlatAt(s, n)
  {
    var f := s.files[n];
    assert Placed(s, n) && Placed(s', n);
    forall b | 0 <= b < f.blockCount
      ensures ContentAt(s'.disk, Lookup(s'.disk, f.pointers, b)) == ContentAt(s.disk, Lookup(s.disk, f.pointers, b))
    {
      IntactReads(s.disk, s.owner, s'.disk, s'.owner, n, f.pointers, f.blockCount, b);
    }
    assert Contents(s'.disk, f.pointers, f.blockCount) == Contents(s.disk, f.pointers, f.blockCount);
  }

  lemma SparedFlat(s: State, s': State, ino: nat)
    requires AllPlaced(s) && AllPlaced(s') && Spared(s, s', {ino}) && WholeBlocks(s.disk) && WholeBlocks(s'.disk)
    ensures SameBut(FlatOf(s), FlatOf(s'), ino)
  {
    forall n | n in FlatOf(s) && n != ino ensures n in FlatOf(s') && FlatOf(s')[n] == FlatOf(s)[n] {
      SparedReads(s, s', {ino}, n);
    }
  }

  ghost predicate SameBut(m: Flat, m': Flat, ino: nat)
  {
    forall n | n in m && n != ino :: n in m' && m'[n] == m[n]
  }

  /** The whole table after an operation, from what it does to the file it names. */
  lemma FlatStep(m: Flat, m': Flat, op: Op)
    requires Possible(m, op) && SameBut(m, m', op.ino)
    requires m'.Keys == if op.Remove? then m.Keys - {op.ino} else m.Keys + {op.ino}
    requires !op.Remove? ==> m'[op.ino] == Apply(m, op)[op.ino]
    ensures m' == Apply(m, op)
  {
    var a := Apply(m, op);
    assert m'.Keys == a.Keys;
    forall n | n in m' ensures m'[n] == a[n] {
      if n != op.ino { assert n in m; }
    }
  }

  /** Only the first `count` logical blocks of `ino` have blocks. */
  ghost predicate LabelsBelow(owner: seq<Owner>, ino: nat, count: nat)
  {
    forall x | 0 <= x < |owner| && owner[x].Data? && owner[x].ino == ino :: owner[x].logical < count
  }

  /** The file reads as it did, with `num` blocks of zeros more. */
  ghost predicate Extended(wasDisk: Disk, was: Pointers, count: nat, disk: Disk, p: Pointers, num: nat)
  {
    && |was.direct| == |p.direct| == NUM_BLOCKS_DIRECT && count + num <= MAX_LOGICAL
    && Contents(disk, p, count + num) == Contents(wasDisk, was, count) + seq(num, _ => Zeros())
  }

  lemma CoveredLabels(s: State, ino: nat)
    requires Covered(s) && ino in s.files
    ensures LabelsBelow(s.owner, ino, s.files[ino].blockCount)
    ensures Counts(s.files)[ino := s.files[ino].blockCount] == Counts(s.files)
  {
  }

  lemma ExtendedByNone(disk: Disk, p: Pointers, count: nat)
    requires |p.direct| == NUM_BLOCKS_DIRECT && count <= MAX_LOGICAL
    ensures Extended(disk, p, count, disk, p, 0)
  {
  }

  /** An append leaves the blocks that there were and adds blocks of zeros. */
  lemma AppendReads(wasDisk: Disk, wasUsed: seq<bool>, wasOwner: seq<Owner>, was: Pointers, count: nat, disk: Disk,
                    used: seq<bool>, owner: seq<Owner>, p: Pointers, num: nat, ino: nat, data: Disk,
                    limits: map<nat, nat>)
    requires Mapped(wasDisk, wasOwner, ino, was, count) && Mapped(disk, owner, ino, p, count + num) &&
      count <= LEVEL_TWO
    requires OnlyAdds(wasDisk, wasOwner, disk, owner, ino) && Stable(wasDisk, was, disk, p, count)
    requires Sane(wasDisk, wasUsed, wasOwner, data, limits) && Sane(disk, used, owner, data, limits)
    requires LabelsBelow(wasOwner, ino, count)
    ensures Extended(wasDisk, was, count, disk, p, num)
  {
    forall b | 0 <= b < count + num
      ensures ContentAt(disk, Lookup(disk, p, b)) ==
        if b < count then ContentAt(wasDisk, Lookup(wasDisk, was, b)) else Zeros()
    {
      LookupFindsData(disk, owner, ino, p, count + num, b);
      if b < count {
        LookupFindsData(wasDisk, wasOwner, ino, was, count, b);
        StableLookup(wasDisk, was, disk, p, count, b);
      }
    }
  }

  /** Changing a data block moves no file. */
  lemma LookupStays(disk: Disk, owner: seq<Owner>, disk': Disk, ino: nat, p: Pointers, num: nat, b: nat)
    requires Mapped(disk, owner, ino, p, num) && b < num && |disk'| == |disk| && WholeBlocks(disk) && WholeBlocks(disk')
    requires forall x | 0 <= x < |disk| && owner[x].Meta? :: disk'[x] == disk[x]
    ensures Lookup(disk', p, b) == Lookup(disk, p, b)
  {
    LookupFindsData(disk, owner, ino, p, num, b);
    forall m | m in LookupPath(disk, p, b) ensures 0 <= m < |disk| && disk'[m] == disk[m] {
      assert PointsFor(owner, m, ino, b);
    }
  }

  /** A written block reads as what was written, and the others of the file as they did. */
  lemma WriteReads(disk: Disk, owner: seq<Owner>, disk': Disk, ino: nat, p: Pointers, num: nat, b: nat, block: seq<int>)
    requires Mapped(disk, owner, ino, p, num) && b < num && |block| == N && WholeBlocks(disk)
    requires 0 <= Lookup(disk, p, b) < |disk| && disk' == disk[Lookup(disk, p, b) := block]
    ensures Contents(disk', p, num) == Contents(disk, p, num)[b := block]
    ensures owner[Lookup(disk, p, b)] == Data(ino, b)
  {
    LookupFindsData(disk, owner, ino, p, num, b);
    forall c | 0 <= c < num
      ensures ContentAt(disk', Lookup(disk', p, c)) == if c == b then block else ContentAt(disk, Lookup(disk, p, c))
    {
      LookupFindsData(disk, owner, ino, p, num, c);
      LookupStays(disk, owner, disk', ino, p, num, c);
    }
  }

  /** Disk, bitmap, labels and one inode. */
  datatype Snap = Snap(disk: Disk, used: seq<bool>, owner: seq<Owner>, p: Pointers, count: nat)

  ghost predicate SnapMapped(s: Snap, ino: nat, data: Disk, limits: map<nat, nat>)
  {
    Mapped(s.disk, s.owner, ino, s.p, s.count) && Sane(s.disk, s.used, s.owner, data, limits)
  }

  lemma SnapExtended(was: Snap, now: Snap, ino: nat, num: nat, data: Disk, limits: map<nat, nat>, status: Status)
    requires SnapMapped(was, ino, data, limits) && SnapMapped(now, ino, data, limits) && was.count <= LEVEL_TWO
    requires OnlyAdds(was.disk, was.owner, now.disk, now.owner, ino) &&
      Stable(was.disk, was.p, now.disk, now.p, was.count)
    requires LabelsBelow(was.owner, ino, was.count)
    requires status == Success ==> now.count == was.count + num
    requires status == Failure ==> now.disk == was.disk && now.p == was.p && now.count == was.count
    ensures Extended(was.disk, was.p, was.count, now.disk, now.p, if status == Success then num else 0)
  {
    if status == Success {
      AppendReads(was.disk, was.used, was.owner, was.p, was.count, now.disk, now.used, now.owner, now.p, num, ino, data,
                  limits);
    } else {
      ExtendedByNone(now.disk, now.p, now.count);
    }
  }

  /** How many logical blocks each file has. */
  ghost function Counts(files: map<nat, File>): map<nat, nat>
  {
    map n | n in files :: files[n].blockCount
  }

  /** Only files in use have blocks, and none beyond its last. */
  ghost predicate Covered(s: State)
  {
    Limited(s.owner, Counts(s.files))
  }

  lemma CoveredWith(s: State, s': State, ino: nat)
    requires Covered(s) && ino in s'.files && s'.files == s.files[ino := s'.files[ino]] && s'.owner == s.owner
    requires ino in s.files ==> s'.files[ino].blockCount == s.files[ino].blockCount
    ensures Covered(s')
  {
    var c, d := Counts(s.files), Counts(s'.files);
    forall x | 0 <= x < |s.owner| && s.owner[x].Data? ensures s.owner[x].logical < Limit(d, s.owner[x].ino) {
      assert s.owner[x].logical < Limit(c, s.owner[x].ino);
    }
  }

  lemma CoveredWithout(s: State, s': State, ino: nat, blocks: seq<int>)
    requires Covered(s) && s'.files == s.files - {ino} && s'.owner == Released(s.owner, blocks, ino)
    ensures Covered(s')
  {
    var c, d := Counts(s.files), Counts(s'.files);
    forall x | 0 <= x < |s'.owner| && s'.owner[x].Data? ensures s'.owner[x].logical < Limit(d, s'.owner[x].ino) {
      assert s'.owner[x] == s.owner[x] && s.owner[x].logical < Limit(c, s.owner[x].ino);
    }
  }

  /** A state in which only file `ino` differs, or is gone. */
  lemma FlatAfter(s: State, s': State, op: Op)
    requires AllPlaced(s) && AllPlaced(s') && Spared(s, s', {op.ino}) && WholeBlocks(s.disk) && WholeBlocks(s'.disk)
    requires Possible(FlatOf(s), op)
    requires s'.files.Keys == if op.Remove? then s.files.Keys - {op.ino} else s.files.Keys + {op.ino}
    requires !op.Remove? ==> op.ino in s'.files && FlatOf(s')[op.ino] == Apply(FlatOf(s), op)[op.ino]
    ensures FlatOf(s') == Apply(FlatOf(s), op)
  {
    SparedFlat(s, s', op.ino);
    FlatStep(FlatOf(s), FlatOf(s'), op);
  }

  const NEW_POINTERS := Pointers(seq(NUM_BLOCKS_DIRECT, _ => 0), 0, 0, 0)

  /** A file is created. */
  lemma FileCreated(s: State, s': State, ino: nat, isDirectory: bool)
    requires AllPlaced(s) && Covered(s) && ino !in s.files && WholeBlocks(s.disk) && |s.disk| == |s.owner|
    requires s' == s.(files := s.files[ino := File(isDirectory, NEW_POINTERS, 0, 0)])
    ensures AllPlaced(s') && Covered(s') && Spared(s, s', {ino})
    ensures FlatOf(s') == Apply(FlatOf(s), Create(ino, isDirectory))
  {
    AppendSpares(s, s', ino);
    SparedPlaced(s, s', ino);
    CoveredWith(s, s', ino);
    FlatAfter(s, s', Create(ino, isDirectory));
  }

  /** The size of a file is set. */
  lemma SizeChanged(s: State, s': State, ino: nat, size: nat)
    requires AllPlaced(s) && Covered(s) && ino in s.files && WholeBlocks(s.disk) && |s.disk| == |s.owner|
    requires s' == s.(files := s.files[ino := s.files[ino].(size := size)])
    ensures AllPlaced(s') && Covered(s') && Spared(s, s', {ino}) && FlatOf(s') == Apply(FlatOf(s), SetSize(ino, size))
  {
    assert Placed(s, ino);
    AppendSpares(s, s', ino);
    SparedPlaced(s, s', ino);
    CoveredWith(s, s', ino);
    FlatAfter(s, s', SetSize(ino, size));
  }

  /** Block `b` of a file is written. */
  lemma BlockWritten(s: State, s': State, ino: nat, b: nat, block: seq<int>)
    requires AllPlaced(s) && ino in s.files && Placed(s, ino) && b < s.files[ino].blockCount && |block| == N
    requires WholeBlocks(s.disk) && 0 <= Lookup(s.disk, s.files[ino].pointers, b) < |s.disk|
    requires s' == s.(disk := s.disk[Lookup(s.disk, s.files[ino].pointers, b) := block])
    ensures AllPlaced(s') && Spared(s, s', {ino}) && b < |FlatOf(s)[ino].blocks|
    ensures FlatOf(s') == Apply(FlatOf(s), Write(ino, b, block))
  {
    var f := s.files[ino];
    WriteReads(s.disk, s.owner, s'.disk, ino, f.pointers, f.blockCount, b, block);
    OthersStayMapped(s.disk, s.owner, s'.disk, s'.owner, ino, f.pointers, f.blockCount);
    SparedPlaced(s, s', ino);
    FlatAfter(s, s', Write(ino, b, block));
  }

  /** The blocks that an append adds: none if it is refused. */
  function Added(f: File, num: nat): nat
  {
    if f.isDirectory && num + f.size / BLOCK_SIZE > NUM_BLOCKS_DIRECT then 0 else num
  }

  /** File `ino` has been extended, or an extension refused; its inode is now `g`. */
  ghost predicate GrownTo(s: State, s': State, ino: nat, num: nat)
  {
    && ino in s.files && ino in s'.files && s'.files == s.files[ino := s'.files[ino]]
    && var f, g, n := s.files[ino], s'.files[ino], Added(s.files[ino], num);
    && Placed(s', ino) && OnlyAdds(s.disk, s.owner, s'.disk, s'.owner, ino)
    && g == f.(pointers := g.pointers, blockCount := f.blockCount + n)
    && Extended(s.disk, f.pointers, f.blockCount, s'.disk, g.pointers, n)
    && Limited(s'.owner, Counts(s.files)[ino := f.blockCount + n])
  }

  lemma GrownIs(s: State, ino: nat, num: nat, g: File, disk: Disk, owner: seq<Owner>, status: Status)
    requires Covered(s) && ino in s.files && Placed(State(disk, owner, s.files[ino := g]), ino)
    requires OnlyAdds(s.disk, s.owner, disk, owner, ino)
    requires var f := s.files[ino];
      && (status == Failure <==> f.isDirectory && num + f.size / BLOCK_SIZE > NUM_BLOCKS_DIRECT)
      && g == f.(pointers := g.pointers, blockCount := f.blockCount + if status == Success then num else 0)
      && Extended(s.disk, f.pointers, f.blockCount, disk, g.pointers, if status == Success then num else 0)
    requires if status == Success then Limited(owner, Counts(s.files)[ino := g.blockCount]) else owner == s.owner
    ensures GrownTo(s, State(disk, owner, s.files[ino := g]), ino, num)
  {
    CoveredLabels(s, ino);
  }

  lemma GrownFlat(s: State, s': State, ino: nat, num: nat)
    requires GrownTo(s, s', ino, num) && AllPlaced(s) && Placed(s, ino)
    ensures FlatAt(s', ino) == Apply(FlatOf(s), Append(ino, num))[ino]
  {
    var f := s.files[ino];
    var c := Contents(s.disk, f.pointers, f.blockCount);
    if Added(f, num) == 0 { assert c + seq(0, _ => Zeros()) == c; }
  }

  lemma GrownCovered(s: State, s': State, ino: nat, num: nat)
    requires GrownTo(s, s', ino, num)
    ensures Covered(s')
  {
    assert Counts(s'.files) == Counts(s.files)[ino := s'.files[ino].blockCount];
  }

  lemma GrownSpares(s: State, s': State, ino: nat, num: nat)
    requires GrownTo(s, s', ino, num) && AllPlaced(s)
    ensures AllPlaced(s') && Spared(s, s', {ino}) && Covered(s')
  {
    AppendSpares(s, s', ino);
    SparedPlaced(s, s', ino);
    GrownCovered(s, s', ino, num);
  }

  lemma FileGrown(s: State, s': State, ino: nat, num: nat)
    requires GrownTo(s, s', ino, num) && AllPlaced(s) && WholeBlocks(s.disk) && WholeBlocks(s'.disk)
    ensures AllPlaced(s') && Spared(s, s', {ino}) && Covered(s') && FlatOf(s') == Apply(FlatOf(s), Append(ino, num))
  {
    GrownSpares(s, s', ino, num);
    assert Placed(s, ino);
    GrownFlat(s, s', ino, num);
    FlatAfter(s, s', Append(ino, num));
  }

  /** A file is removed. */
  lemma FileRemoved(s: State, used: seq<bool>, s': State, used': seq<bool>, ino: nat)
    requires AllPlaced(s) && Covered(s) && Consistent(s.disk, used, s.owner) && ino in s.files && WholeBlocks(s'.disk)
    requires GivenBack(BlocksOf(s, ino), s.disk, used, s'.disk, used') &&
      s'.owner == Released(s.owner, BlocksOf(s, ino), ino)
    requires s'.files == s.files - {ino}
    ensures AllPlaced(s') && Covered(s') && Spared(s, s', {ino}) && FlatOf(s') == Apply(FlatOf(s), Remove(ino))
  {
    CoveredWithout(s, s', ino, BlocksOf(s, ino));
    RemovalSpares(s, used, s', used', ino);
    FlatAfter(s, s', Remove(ino));
  }

  /** A data block is overwritten. */
  method PutBlock(fs: FileSystem, x: int, block: seq<int>)
    requires fs.Valid() && 0 <= x < |fs.disk| && fs.owner[x].Data? && |block| == N
    modifies fs`disk, fs`data
    ensures fs.Valid() && fs.disk == old(fs.disk)[x := block]
  {
    fs.disk := fs.disk[x := block];
    fs.data := fs.data[x := block];
  }

  /** The inode table of one file system. */
  class Volume {
    const fs: FileSystem
    var files: map<nat, File>

    /** Every inode in use maps its blocks, and no blocks are kept for others or beyond them. */
    ghost predicate Valid()
      reads this, fs
    {
      fs.Valid() && AllPlaced(Now()) && Covered(Now())
    }

    ghost function Now(): State
      reads this, fs
    {
      State(fs.disk, fs.owner, files)
    }

    /** The files as their users see them. */
    ghost function View(): Flat
      requires Valid()
      reads this, fs
    {
      FlatOf(Now())
    }

    constructor (fs: FileSystem)
      requires fs.Valid() && fs.limits == map[]
      ensures this.fs == fs && files == map[] && Valid()
    {
      this.fs, files := fs, map[];
    }

    method Create(ino: nat, isDirectory: bool)
      requires Valid() && ino !in files
      modifies this`files
      ensures Valid() && files.Keys == old(files.Keys) + {ino} && Spared(old(Now()), Now(), {ino})
      ensures View() == Apply(old(View()), Op.Create(ino, isDirectory))
    {
      files := files[ino := File(isDirectory, NEW_POINTERS, 0, 0)];
      FileCreated(old(Now()), Now(), ino, isDirectory);
    }

    method ReadInode(ino: nat) returns (inode: Inode)
      requires Valid() && ino in files
      ensures fresh(inode) && inode.number == ino && Appendable(fs, inode)
      ensures files[ino] == File(inode.isDirectory, inode.pointers, inode.blockCount, inode.size)
    {
      var f := files[ino];
      assert Placed(Now(), ino);
      inode := new Inode(ino, f.isDirectory);
      inode.pointers, inode.blockCount, inode.size := f.pointers, f.blockCount, f.size;
    }

    /** What an allocation asks of the inode and of the space left. */
    predicate Room(f: File, num: nat)
      reads fs
    {
      && f.blockCount <= LEVEL_TWO && num > 0 && f.blockCount + num <= MAX_LOGICAL
      && (f.size + BLOCK_SIZE - 1) / BLOCK_SIZE < MAX_LOGICAL && FirstOfLevel(StartLevel(f.size)) <= f.blockCount
      && CountClear(fs.used) >= Cost(f.blockCount, f.pointers.single != 0, num)
    }

    /** An append, and what it leaves of the file. */
    method Grow(inode: Inode, num: nat) returns (status: Status)
      requires Appendable(fs, inode) && Limit(fs.limits, inode.number) == inode.blockCount + num
      requires Room(File(inode.isDirectory, inode.pointers, inode.blockCount, inode.size), num)
      requires LabelsBelow(fs.owner, inode.number, inode.blockCount)
      modifies fs`disk, fs`used, fs`owner, inode`pointers, inode`blockCount
      ensures Appendable(fs, inode) && OnlyAdds(old(fs.disk), old(fs.owner), fs.disk, fs.owner, inode.number)
      ensures status == Failure <==> inode.isDirectory && num + inode.size / BLOCK_SIZE > NUM_BLOCKS_DIRECT
      ensures inode.blockCount == old(inode.blockCount) + (if status == Success then num else 0)
      ensures status == Failure ==> fs.owner == old(fs.owner)
      ensures Extended(old(fs.disk), old(inode.pointers), old(inode.blockCount), fs.disk, inode.pointers,
                       if status == Success then num else 0)
    {
      ghost var was := Snap(fs.disk, fs.used, fs.owner, inode.pointers, inode.blockCount);
      status := AllocateNewBlocks(fs, inode, num);
      ghost var now := Snap(fs.disk, fs.used, fs.owner, inode.pointers, inode.blockCount);
      SnapExtended(was, now, inode.number, num, fs.data, fs.limits, status);
    }

    method Append(ino: nat, num: nat) returns (status: Status)
      requires Valid() && ino in files && Room(files[ino], num)
      modifies this`files, fs`disk, fs`used, fs`owner, fs`limits
      ensures Valid() && files.Keys == old(files.Keys) && Spared(old(Now()), Now(), {ino})
      ensures View() == Apply(old(View()), Op.Append(ino, num))
    {
      var f;
      status, f := GrowFile(ino, num);
      files := files[ino := f];
      FileGrown(old(Now()), Now(), ino, num);
    }

    /** An append and the inode that is to be written back. */
    method GrowFile(ino: nat, num: nat) returns (status: Status, f: File)
      requires Valid() && ino in files && Room(files[ino], num)
      modifies fs`disk, fs`used, fs`owner, fs`limits
      ensures fs.Valid() && GrownTo(old(Now()), State(fs.disk, fs.owner, files[ino := f]), ino, num)
    {
      var inode := ReadInode(ino);
      CoveredLabels(Now(), ino);
      RaiseLimit(ino, num);
      status := Grow(inode, num);
      f := File(inode.isDirectory, inode.pointers, inode.blockCount, inode.size);
      GrownIs(old(Now()), ino, num, f, fs.disk, fs.owner, status);
    }

    /** Makes room for the labels of `num` more blocks. */
    ghost method RaiseLimit(ino: nat, num: nat)
      requires Valid() && ino in files
      modifies fs`limits
      ensures fs.Valid() && fs.limits == Counts(files)[ino := files[ino].blockCount + num]
    {
      LimitRaised(fs.owner, Counts(files), ino, files[ino].blockCount + num);
      fs.limits := Counts(files)[ino := files[ino].blockCount + num];
    }

    /** Writing a whole block of a file: one turn of the loop that copies data to the blocks that lookup gives. */
    method Write(ino: nat, b: nat, block: seq<int>)
      requires Valid() && ino in files && b < files[ino].blockCount && |block| == N
      modifies fs`disk, fs`data
      ensures Valid() && Spared(old(Now()), Now(), {ino})
      ensures b < |old(View())[ino].blocks| && View() == Apply(old(View()), Op.Write(ino, b, block))
    {
      assert Placed(Now(), ino);
      LookupFindsData(fs.disk, fs.owner, ino, files[ino].pointers, files[ino].blockCount, b);
      var x := Lookup(fs.disk, files[ino].pointers, b);
      PutBlock(fs, x, block);
      BlockWritten(old(Now()), Now(), ino, b, block);
    }

    /** Setting the size; the blocks do not depend on it. */
    method SetSize(ino: nat, size: nat)
      requires Valid() && ino in files
      modifies this`files
      ensures Valid() && files.Keys == old(files.Keys) && Spared(old(Now()), Now(), {ino})
      ensures View() == Apply(old(View()), Op.SetSize(ino, size))
    {
      files := files[ino := files[ino].(size := size)];
      SizeChanged(old(Now()), Now(), ino, size);
    }

    /** The blocks of the file are given back in order. */
    method Release(ino: nat)
      requires Valid() && ino in files
      modifies fs
      ensures fs.Valid()
      ensures fs.freed == old(fs.freed) + BlocksOf(old(Now()), ino)
      ensures fs.owner == Released(old(fs.owner), BlocksOf(old(Now()), ino), ino)
      ensures GivenBack(BlocksOf(old(Now()), ino), old(fs.disk), old(fs.used), fs.disk, fs.used)
    {
      assert Placed(Now(), ino);
      var inode := ReadInode(ino);
      RemoveFile(fs, inode);
    }

    /** A file is removed; every other file keeps its blocks. */
    method Remove(ino: nat)
      requires Valid() && ino in files
      modifies this`files, fs
      ensures Valid() && files == old(files) - {ino} && Spared(old(Now()), Now(), {ino})
      ensures fs.freed == old(fs.freed) + BlocksOf(old(Now()), ino)
      ensures View() == Apply(old(View()), Op.Remove(ino))
    {
      Release(ino);
      files := files - {ino};
      FileRemoved(old(Now()), old(fs.used), Now(), fs.used, ino);
    }

    /** An operation can be done when its inode is there, or is not there yet, and has room for what is asked. */
    predicate Enabled(op: Op)
      reads this, fs
    {
      match op
      case Create(ino, _) => ino !in files
      case Append(ino, num) => ino in files && Room(files[ino], num)
      case Write(ino, b, block) => ino in files && b < files[ino].blockCount && |block| == N
      case _ => op.ino in files
    }

    method Step(op: Op)
      requires Valid() && Enabled(op)
      modifies this`files, fs
      ensures Valid() && Spared(old(Now()), Now(), {op.ino})
      ensures Possible(old(View()), op) && View() == Apply(old(View()), op)
    {
      match op {
        case Create(ino, isDirectory) => Create(ino, isDirectory);
        case Append(ino, num) => var _ := Append(ino, num);
        case Write(ino, b, block) => Write(ino, b, block);
        case SetSize(ino, size) => SetSize(ino, size);
        case Remove(ino) => Remove(ino);
      }
    }

    /** Every run, up to the first operation that cannot be done, does what the same operations do on flat files, and a
        file that no operation names keeps its inode, its blocks and their contents. */
    method Run(ops: seq<Op>) returns (done: nat)
      requires Valid()
      modifies this`files, fs
      ensures Valid() && Spared(old(Now()), Now(), Named(ops))
      ensures done <= |ops| && Leads(old(View()), ops[..done], View()) && (done < |ops| ==> !Enabled(ops[done]))
      decreases |ops|, 1
    {
      if ops == [] || !Enabled(ops[0]) {
        return 0;
      }
      Step(ops[0]);
      done := Rest(ops, old(Now()), old(View()));
    }

    /** The rest of a run, after its first operation, from the state `was` with the files `m`. */
    method Rest(ops: seq<Op>, ghost was: State, ghost m: Flat) returns (done: nat)
      requires Valid() && ops != [] && Spared(was, Now(), {ops[0].ino}) && Possible(m, ops[0]) &&
        View() == Apply(m, ops[0])
      modifies this`files, fs
      ensures Valid() && Spared(was, Now(), Named(ops))
      ensures 0 < done <= |ops| && Leads(m, ops[..done], View()) && (done < |ops| ==> !Enabled(ops[done]))
      decreases |ops|, 0
    {
      done := Run(ops[1..]);
      SparedThen(was, old(Now()), Now(), {ops[0].ino}, Named(ops[1..]));
      LeadsThen(m, ops, done, View());
      done := done + 1;
    }
  }

  lemma LeadsThen(m: Flat, ops: seq<Op>, done: nat, m': Flat)
    requires ops != [] && done < |ops| && Possible(m, ops[0])
    requires Leads(Apply(m, ops[0]), ops[1..][..done], m')
    ensures Leads(m, ops[..done + 1], m')
  {
    assert ops[..done + 1][0] == ops[0] && ops[..done + 1][1..] == ops[1..][..done];
  }

  /** The operations lead from `m` to `m'` on flat files. */
  ghost predicate Leads(m: Flat, ops: seq<Op>, m': Flat)
    decreases |ops|
  {
    if ops == [] then m' == m
    else
      Possible(m, ops[0]) && Leads(Apply(m, ops[0]), ops[1..], m')
  }
}
