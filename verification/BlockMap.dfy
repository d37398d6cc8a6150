/** The block map of a DiosFS inode: ten direct pointers and a single, a double and a triple indirect
    tree of pointer blocks. Allocation, lookup and freeing each walk these trees in their own way. */
module BlockMap {
  import opened Prelude

  const NUM_BLOCKS_DIRECT: nat := 10
  const N: nat := 128                       // pointers in an indirection block
  const N2: nat := 16384                    // N * N
  const N3: nat := 2097152                  // N * N * N
  const MAX_LOGICAL: nat := NUM_BLOCKS_DIRECT + N + N2 + N3

  // ---------------------------------------------------------------------- index arithmetic

  datatype Indices = Indices(level: nat, direct: nat, third: nat, second: nat, first: nat)

  /** Where logical block `b` sits; the original panics on a larger number. */
  function IndicesFor(b: nat): (r: Indices)
    requires b < MAX_LOGICAL
    ensures r.level <= 3 && r.direct < NUM_BLOCKS_DIRECT && r.third < N && r.second < N && r.first < N
    ensures b == LogicalBlock(r)
  {
    if b < NUM_BLOCKS_DIRECT then Indices(0, b, 0, 0, 0)
    else if b < N + NUM_BLOCKS_DIRECT then
      Indices(1, 0, 0, 0, (b - NUM_BLOCKS_DIRECT) % N)
    else if b < N2 + N + NUM_BLOCKS_DIRECT then
      var k := b - (N + NUM_BLOCKS_DIRECT);
      Indices(2, 0, 0, k / N, k % N)
    else
      var k := b - (N2 + N + NUM_BLOCKS_DIRECT);
      var third := k / N2;
      Indices(3, 0, third, (k - third * N2) / N, k % N)
  }

  /** The logical block that a set of indices addresses. */
  function LogicalBlock(r: Indices): nat
  {
    match r.level
    case 0 => r.direct
    case 1 => NUM_BLOCKS_DIRECT + r.first
    case 2 => NUM_BLOCKS_DIRECT + N + r.second * N + r.first
    case _ => NUM_BLOCKS_DIRECT + N + N2 + r.third * N2 + r.second * N + r.first
  }

  // ---------------------------------------------------------------------- pointers and lookup

  /** The pointers of an inode. */
  datatype Pointers = Pointers(direct: seq<int>, single: int, double: int, triple: int)

  type Disk = seq<seq<int>>

  /** Pointer `i` of block `b`. */
  function At(disk: Disk, b: int, i: nat): int
  {
    if 0 <= b < |disk| && i < |disk[b]| then disk[b][i] else 0
  }

  function Lookup(disk: Disk, p: Pointers, b: nat): int
    requires b < MAX_LOGICAL && |p.direct| == NUM_BLOCKS_DIRECT
  {
    var r := IndicesFor(b);
    match r.level
    case 0 => p.direct[r.direct]
    case 1 => At(disk, p.single, r.first)
    case 2 => At(disk, At(disk, p.double, r.second), r.first)
    case _ => At(disk, At(disk, At(disk, p.triple, r.third), r.second), r.first)
  }

  /** The indirection blocks that the lookup of `b` reads. */
  ghost function LookupPath(disk: Disk, p: Pointers, b: nat): set<int>
    requires b < MAX_LOGICAL
  {
    var r := IndicesFor(b);
    match r.level
    case 0 => {}
    case 1 => {p.single}
    case 2 => {p.double, At(disk, p.double, r.second)}
    case _ => {p.triple, At(disk, p.triple, r.third), At(disk, At(disk, p.triple, r.third), r.second)}
  }

  // ---------------------------------------------------------------------- ownership

  /** What a block is marked for: unmarked; in use by something else; logical block `logical` of inode
      `ino`; or a pointer block of `ino` whose subtree has `depth` levels of pointers and starts at logical
      block `first`. A block has one owner, so blocks with different owners are different. */
  datatype Owner = Free | Other | Data(ino: nat, logical: nat) | Meta(ino: nat, depth: nat, first: nat)

  predicate BelongsTo(o: Owner, ino: nat)
  {
    (o.Data? || o.Meta?) && o.ino == ino
  }

  /** The blocks of `ino` stay with it, and its pointer blocks below `depth` keep their contents. */
  ghost predicate Undisturbed(ino: nat, depth: nat, disk: Disk, owner: seq<Owner>, disk': Disk, owner': seq<Owner>)
  {
    && |disk| == |disk'| == |owner| == |owner'|
    && forall x | 0 <= x < |owner| && BelongsTo(owner[x], ino) ::
         owner'[x] == owner[x] && (owner[x].Meta? && owner[x].depth < depth ==> disk'[x] == disk[x])
  }

  /** Marks are only added. */
  ghost predicate Extends(was: seq<Owner>, now: seq<Owner>)
  {
    |now| == |was| && forall x | 0 <= x < |was| && was[x] != Free :: now[x] == was[x]
  }

  /** All blocks before `x` are marked. */
  ghost predicate FullBelow(owner: seq<Owner>, x: nat)
    requires x <= |owner|
  {
    forall y | 0 <= y < x :: owner[y] != Free
  }

  /** A block is marked only when no block before it is clear. */
  ghost predicate FirstFit(was: seq<Owner>, now: seq<Owner>)
  {
    |now| == |was| && forall x | 0 <= x < |was| && was[x] == Free && now[x] != Free :: FullBelow(now, x)
  }

  /** Blocks that were marked keep their contents. */
  ghost predicate Keeps(owner: seq<Owner>, was: Disk, now: Disk)
  {
    |now| == |was| == |owner| && forall x | 0 <= x < |was| && owner[x] != Free :: now[x] == was[x]
  }

  /** A block that was clear does not count among those that are kept. */
  lemma KeepsNew(was: seq<Owner>, owner: seq<Owner>, disk: Disk, b: int, now: Disk)
    requires 0 <= b < |was| == |disk| == |owner| == |now| && was[b] == Free && owner == was[b := owner[b]]
    requires Keeps(owner, disk[b := now[b]], now)
    ensures Keeps(was, disk, now)
  {
    assert forall x | 0 <= x < |was| && was[x] != Free :: owner[x] == was[x] && disk[b := now[b]][x] == disk[x];
  }

  ghost predicate Owns(owner: seq<Owner>, x: int, o: Owner)
  {
    0 <= x < |owner| && owner[x] == o
  }

  /** Pointers `from .. from + n` of a pointer block are the data blocks `base .. base + n` of `ino`. */
  ghost predicate Holds1(owner: seq<Owner>, block: seq<int>, from: nat, n: nat, ino: nat, base: nat)
  {
    from + n <= |block| && forall i {:trigger block[i]} | from <= i < from + n ::
      Owns(owner, block[i], Data(ino, base + i - from))
  }

  /** The first `n` leaves below a depth-2 pointer block are the data blocks `base .. base + n`. */
  ghost predicate Holds2(disk: Disk, owner: seq<Owner>, block: seq<int>, n: nat, ino: nat, base: nat)
    requires |disk| == |owner|
  {
    && n <= N2 && |block| == N
    && forall j {:trigger block[j]} | 0 <= j < N && j * N < n ::
         && Owns(owner, block[j], Meta(ino, 1, base + j * N))
         && Holds1(owner, disk[block[j]], 0, Min(N, n - j * N), ino, base + j * N)
  }

  ghost predicate Holds3(disk: Disk, owner: seq<Owner>, block: seq<int>, n: nat, ino: nat, base: nat)
    requires |disk| == |owner|
  {
    && n <= N3 && |block| == N
    && forall j {:trigger block[j]} | 0 <= j < N && j * N2 < n ::
         && Owns(owner, block[j], Meta(ino, 2, base + j * N2))
         && Holds2(disk, owner, disk[block[j]], Min(N2, n - j * N2), ino, base + j * N2)
  }

  lemma KeepsThen(o0: seq<Owner>, o1: seq<Owner>, o2: seq<Owner>, d0: Disk, d1: Disk, d2: Disk)
    requires Extends(o0, o1) && Extends(o1, o2) && Keeps(o0, d0, d1) && Keeps(o1, d1, d2)
    ensures Extends(o0, o2) && Keeps(o0, d0, d2)
  {
  }

  lemma Holds1Stays(disk: Disk, owner: seq<Owner>, disk': Disk, owner': seq<Owner>, block: seq<int>, from: nat, n: nat,
                    ino: nat, base: nat)
    requires Holds1(owner, block, from, n, ino, base) && Undisturbed(ino, 1, disk, owner, disk', owner')
    ensures Holds1(owner', block, from, n, ino, base)
  {
  }

  /** A tree stays in place while the blocks of others change. */
  lemma Holds2Stays(disk: Disk, owner: seq<Owner>, disk': Disk, owner': seq<Owner>, block: seq<int>, n: nat, ino: nat,
                    base: nat)
    requires Undisturbed(ino, 2, disk, owner, disk', owner') && Holds2(disk, owner, block, n, ino, base)
    ensures Holds2(disk', owner', block, n, ino, base)
  {
    forall j {:trigger block[j]} | 0 <= j < N && j * N < n
      ensures Owns(owner', block[j], Meta(ino, 1, base + j * N))
      ensures Holds1(owner', disk'[block[j]], 0, Min(N, n - j * N), ino, base + j * N)
    {
      Holds1Stays(disk, owner, disk', owner', disk[block[j]], 0, Min(N, n - j * N), ino, base + j * N);
    }
  }

  /** One more depth-1 block extends a tree that is full so far. */
  lemma Holds2Grows(disk: Disk, owner: seq<Owner>, block: seq<int>, index: nat, single: int, amount: nat, ino: nat,
                    base: nat)
    requires |disk| == |owner| && index < N && 0 < amount <= N
    requires Holds2(disk, owner, block, index * N, ino, base)
    requires Owns(owner, single, Meta(ino, 1, base + index * N)) &&
      Holds1(owner, disk[single], 0, amount, ino, base + index * N)
    ensures Holds2(disk, owner, block[index := single], index * N + amount, ino, base)
  {
    var next := block[index := single];
    forall j {:trigger next[j]} | 0 <= j < N && j * N < index * N + amount
      ensures Owns(owner, next[j], Meta(ino, 1, base + j * N))
      ensures Holds1(owner, disk[next[j]], 0, Min(N, index * N + amount - j * N), ino, base + j * N)
    {
      if j < index {
        assert next[j] == block[j] && Min(N, index * N - j * N) == N;
      }
    }
  }

  lemma Holds3Stays(disk: Disk, owner: seq<Owner>, disk': Disk, owner': seq<Owner>, block: seq<int>, n: nat, ino: nat,
                    base: nat)
    requires Undisturbed(ino, 3, disk, owner, disk', owner') && Holds3(disk, owner, block, n, ino, base)
    ensures Holds3(disk', owner', block, n, ino, base)
  {
    forall j {:trigger block[j]} | 0 <= j < N && j * N2 < n
      ensures Owns(owner', block[j], Meta(ino, 2, base + j * N2))
      ensures Holds2(disk', owner', disk'[block[j]], Min(N2, n - j * N2), ino, base + j * N2)
    {
      Holds2Stays(disk, owner, disk', owner', disk[block[j]], Min(N2, n - j * N2), ino, base + j * N2);
    }
  }

  lemma Holds3Grows(disk: Disk, owner: seq<Owner>, block: seq<int>, index: nat, double: int, amount: nat, ino: nat,
                    base: nat)
    requires |disk| == |owner| && index < N && 0 < amount <= N2
    requires Holds3(disk, owner, block, index * N2, ino, base)
    requires Owns(owner, double, Meta(ino, 2, base + index * N2)) &&
      Holds2(disk, owner, disk[double], amount, ino, base + index * N2)
    ensures Holds3(disk, owner, block[index := double], index * N2 + amount, ino, base)
  {
    var next := block[index := double];
    forall j {:trigger next[j]} | 0 <= j < N && j * N2 < index * N2 + amount
      ensures Owns(owner, next[j], Meta(ino, 2, base + j * N2))
      ensures Holds2(disk, owner, disk[next[j]], Min(N2, index * N2 + amount - j * N2), ino, base + j * N2)
    {
      if j < index {
        assert next[j] == block[j] && Min(N2, index * N2 - j * N2) == N2;
      }
    }
  }

  lemma Holds1Join(owner: seq<Owner>, block: seq<int>, a: nat, n: nat, ino: nat, base: nat)
    requires Holds1(owner, block, 0, a, ino, base) && Holds1(owner, block, a, n, ino, base + a)
    ensures Holds1(owner, block, 0, a + n, ino, base)
  {
  }

  const LEVEL_ONE: nat := NUM_BLOCKS_DIRECT
  const LEVEL_TWO: nat := LEVEL_ONE + N
  const LEVEL_THREE: nat := LEVEL_TWO + N2

  /** The pointers of inode `ino` map its first `count` logical blocks, level by level. */
  ghost predicate Mapped(disk: Disk, owner: seq<Owner>, ino: nat, p: Pointers, count: nat)
  {
    && |disk| == |owner| && |p.direct| == NUM_BLOCKS_DIRECT && count <= MAX_LOGICAL
    && Holds1(owner, p.direct, 0, Min(count, LEVEL_ONE), ino, 0)
    && (count > LEVEL_ONE ==>
          Owns(owner, p.single, Meta(ino, 1, LEVEL_ONE)) &&
            Holds1(owner, disk[p.single], 0, Min(N, count - LEVEL_ONE), ino, LEVEL_ONE))
    && (count > LEVEL_TWO ==>
          Owns(owner, p.double, Meta(ino, 2, LEVEL_TWO)) &&
            Holds2(disk, owner, disk[p.double], Min(N2, count - LEVEL_TWO), ino, LEVEL_TWO))
    && (count > LEVEL_THREE ==>
          Owns(owner, p.triple, Meta(ino, 3, LEVEL_THREE)) &&
            Holds3(disk, owner, disk[p.triple], count - LEVEL_THREE, ino, LEVEL_THREE))
  }

  /** What a lookup that reads two or three pointer blocks finds on its way. */
  lemma LevelTwoFinds(disk: Disk, owner: seq<Owner>, ino: nat, p: Pointers, count: nat, b: nat)
    requires Mapped(disk, owner, ino, p, count) && LEVEL_TWO <= b < count && b < LEVEL_THREE
    requires forall x | 0 <= x < |disk| :: |disk[x]| == N
    ensures var r := IndicesFor(b);
      && Owns(owner, p.double, Meta(ino, 2, LEVEL_TWO))
      && Owns(owner, disk[p.double][r.second], Meta(ino, 1, b - r.first))
      && Owns(owner, disk[disk[p.double][r.second]][r.first], Data(ino, b))
  {
    var r := IndicesFor(b);
    Leaf2FindsData(disk, owner, disk[p.double], Min(N2, count - LEVEL_TWO), ino, LEVEL_TWO, r.second, r.first);
  }

  /** Where a block of the third level lies below its root. */
  lemma ThirdLevelPlace(b: nat, count: nat)
    requires LEVEL_THREE <= b < count <= MAX_LOGICAL
    ensures var r, n := IndicesFor(b), count - LEVEL_THREE;
      && r.level == 3 && r.third * N2 < n && r.second * N + r.first < Min(N2, n - r.third * N2)
      && b == LEVEL_THREE + r.third * N2 + r.second * N + r.first
  {
  }

  lemma LevelThreeFinds(disk: Disk, owner: seq<Owner>, ino: nat, p: Pointers, count: nat, b: nat)
    requires Mapped(disk, owner, ino, p, count) && LEVEL_THREE <= b < count
    requires forall x | 0 <= x < |disk| :: |disk[x]| == N
    ensures var r := IndicesFor(b);
      && Owns(owner, p.triple, Meta(ino, 3, LEVEL_THREE))
      && Owns(owner, disk[p.triple][r.third], Meta(ino, 2, b - r.first - r.second * N))
      && var second := disk[disk[p.triple][r.third]];
         && Owns(owner, second[r.second], Meta(ino, 1, b - r.first))
         && Owns(owner, disk[second[r.second]][r.first], Data(ino, b))
  {
    var r, n := IndicesFor(b), count - LEVEL_THREE;
    var j := r.third;
    ThirdLevelPlace(b, count);
    assert Owns(owner, disk[p.triple][j], Meta(ino, 2, LEVEL_THREE + j * N2));
    Leaf2FindsData(disk, owner, disk[disk[p.triple][j]], Min(N2, n - j * N2), ino, LEVEL_THREE + j * N2, r.second,
      r.first);
  }

  /** A pointer block of `ino` whose subtree starts no later than `b`. */
  ghost predicate PointsFor(owner: seq<Owner>, m: int, ino: nat, b: nat)
  {
    0 <= m < |owner| && owner[m].Meta? && owner[m].ino == ino && owner[m].first <= b
  }

  /** Lookup agrees with the map: logical block `b` resolves to the block marked for it, and every block
      read on the way is a pointer block of the inode. */
  lemma LookupFindsData(disk: Disk, owner: seq<Owner>, ino: nat, p: Pointers, count: nat, b: nat)
    requires Mapped(disk, owner, ino, p, count) && b < count
    requires forall x | 0 <= x < |disk| :: |disk[x]| == N
    ensures Owns(owner, Lookup(disk, p, b), Data(ino, b))
    ensures forall m | m in LookupPath(disk, p, b) :: PointsFor(owner, m, ino, b)
  {
    var r := IndicesFor(b);
    if r.level == 0 {
      assert Owns(owner, p.direct[r.direct], Data(ino, b));
    } else if r.level == 1 {
      assert Owns(owner, disk[p.single][r.first], Data(ino, LEVEL_ONE + r.first));
    } else if r.level == 2 {
      LevelTwoFinds(disk, owner, ino, p, count, b);
    } else {
      LevelThreeFinds(disk, owner, ino, p, count, b);
    }
  }

  lemma Leaf2FindsData(disk: Disk, owner: seq<Owner>, block: seq<int>, n: nat, ino: nat, base: nat, second: nat,
                       first: nat)
    requires |disk| == |owner| && Holds2(disk, owner, block, n, ino, base)
    requires second < N && first < N && second * N + first < n
    requires forall x | 0 <= x < |disk| :: |disk[x]| == N
    ensures Owns(owner, block[second], Meta(ino, 1, base + second * N))
    ensures Owns(owner, disk[block[second]][first], Data(ino, base + second * N + first))
  {
    assert Owns(owner, block[second], Meta(ino, 1, base + second * N));
  }

  /** What happens to the blocks of others leaves the map of an inode alone. */
  lemma OthersStayMapped(disk: Disk, owner: seq<Owner>, disk': Disk, owner': seq<Owner>, ino: nat, p: Pointers,
                         count: nat)
    requires Mapped(disk, owner, ino, p, count) && Undisturbed(ino, 4, disk, owner, disk', owner')
    ensures Mapped(disk', owner', ino, p, count)
  {
    Holds1Stays(disk, owner, disk', owner', p.direct, 0, Min(count, LEVEL_ONE), ino, 0);
    if count > LEVEL_ONE {
      Holds1Stays(disk, owner, disk', owner', disk[p.single], 0, Min(N, count - LEVEL_ONE), ino, LEVEL_ONE);
    }
    if count > LEVEL_TWO {
      Holds2Stays(disk, owner, disk', owner', disk[p.double], Min(N2, count - LEVEL_TWO), ino, LEVEL_TWO);
    }
    if count > LEVEL_THREE {
      Holds3Stays(disk, owner, disk', owner', disk[p.triple], count - LEVEL_THREE, ino, LEVEL_THREE);
    }
  }

  // ---------------------------------------------------------------------- allocation

  function Zeros(): (z: seq<int>)
    ensures |z| == N && forall i | 0 <= i < N :: z[i] == 0
  {
    seq(N, _ => 0)
  }

  function CountClear(used: seq<bool>): (n: nat)
    ensures n > 0 ==> exists i | 0 <= i < |used| :: !used[i]
  {
    if used == [] then 0
    else
      var last := |used| - 1;
      CountClear(used[..last]) + if used[last] then 0 else 1
  }

  lemma {:induction false} CountClearMark(used: seq<bool>, b: nat)
    requires b < |used| && !used[b]
    ensures CountClear(used[b := true]) == CountClear(used) - 1
  {
    var last := |used| - 1;
    if b < last {
      CountClearMark(used[..last], b);
      assert used[b := true][..last] == used[..last][b := true];
    } else {
      assert used[b := true][..last] == used[..last];
    }
  }

  /** Blocks taken by a double level that holds `n` data blocks: one for the level itself, and for each
      turn of its loop the data blocks of that turn and one to point at them. */
  function Cost2(n: nat): nat
  {
    if n == 0 then 1 else Min(n, N) + 1 + Cost2(n - Min(n, N))
  }

  /** Blocks taken by a triple level that holds `n` data blocks. */
  function Cost3(n: nat): nat
  {
    if n == 0 then 1 else Cost2(Min(n, N2)) + Cost3(n - Min(n, N2))
  }

  lemma {:induction false} Cost2ClosedForm(n: nat)
    ensures Cost2(n) == n + (n + N - 1) / N + 1
  {
    if n > N { Cost2ClosedForm(n - N); }
  }

  lemma {:induction false} Cost3ClosedForm(n: nat)
    ensures Cost3(n) == n + (n + N - 1) / N + (n + N2 - 1) / N2 + 1
  {
    Cost2ClosedForm(Min(n, N2));
    if n > N2 { Cost3ClosedForm(n - N2); }
  }

  lemma CostPositive(n: nat)
    ensures Cost2(n) >= 1 && Cost3(n) >= 1
  {
    Cost2ClosedForm(n);
    Cost3ClosedForm(n);
  }

  class Inode {
    const number: nat
    const isDirectory: bool
    var size: nat
    var blockCount: nat
    var pointers: Pointers

    constructor (number: nat, isDirectory: bool)
      ensures this.number == number && this.isDirectory == isDirectory && size == 0 && blockCount == 0
      ensures pointers == Pointers(seq(NUM_BLOCKS_DIRECT, _ => 0), 0, 0, 0)
    {
      this.number, this.isDirectory := number, isDirectory;
      size, blockCount := 0, 0;
      pointers := Pointers(seq(NUM_BLOCKS_DIRECT, _ => 0), 0, 0, 0);
    }
  }

  /** The bitmap marks what has an owner. Block 0 is taken, because pointer 0 means none; clear blocks hold zeros. */
  ghost predicate Consistent(disk: Disk, used: seq<bool>, owner: seq<Owner>)
  {
    && |used| == |disk| == |owner| > 0
    && owner[0] == Other
    && (forall b | 0 <= b < |disk| :: |disk[b]| == N && (used[b] <==> owner[b] != Free))
    && (forall b | 0 <= b < |disk| && owner[b] == Free :: disk[b] == Zeros())
  }

  /** Data blocks hold `data`, and so will those that are still clear, which is zeros. */
  ghost predicate Settled(disk: Disk, owner: seq<Owner>, data: Disk)
  {
    && |disk| == |owner| == |data|
    && (forall x | 0 <= x < |owner| && owner[x].Data? :: disk[x] == data[x])
    && (forall x | 0 <= x < |owner| && owner[x] == Free :: data[x] == Zeros())
  }

  /** How many logical blocks inode `ino` may have. */
  ghost function Limit(limits: map<nat, nat>, ino: nat): nat
  {
    if ino in limits then limits[ino] else 0
  }

  /** Only the first logical blocks of an inode, up to its limit, have blocks. */
  ghost predicate Limited(owner: seq<Owner>, limits: map<nat, nat>)
  {
    forall x | 0 <= x < |owner| && owner[x].Data? :: owner[x].logical < Limit(limits, owner[x].ino)
  }

  ghost predicate Sane(disk: Disk, used: seq<bool>, owner: seq<Owner>, data: Disk, limits: map<nat, nat>)
  {
    Consistent(disk, used, owner) && Settled(disk, owner, data) && Limited(owner, limits)
  }

  class FileSystem {
    var disk: Disk
    var used: seq<bool>            // the block bitmap
    ghost var owner: seq<Owner>
    ghost var freed: seq<int>      // the blocks given back, in the order in which they were
    ghost var data: Disk           // what the data blocks hold
    ghost var limits: map<nat, nat>  // how many logical blocks each inode may have

    ghost predicate Valid()
      reads this
    {
      Sane(disk, used, owner, data, limits)
    }

    /** First fit on the bitmap; the original panics when no bit is clear. */
    method GetFreeBlock(ghost o: Owner) returns (b: int)
      requires Valid() && CountClear(used) > 0 && o != Free && (o.Data? ==> o.logical < Limit(limits, o.ino))
      modifies this`used, this`owner
      ensures Valid() && 0 < b < |disk| && old(owner)[b] == Free && owner == old(owner)[b := o]
      ensures CountClear(used) == old(CountClear(used)) - 1
      ensures forall c | 0 <= c < b :: old(owner)[c] != Free
    {
      b := 0;
      while used[b]
        invariant 0 <= b < |used| && forall c | 0 <= c < b :: used[c]
        decreases |used| - b
      {
        b := b + 1;
      }
      CountClearMark(used, b);
      used := used[b := true];
      owner := owner[b := o];
    }

    /** Allocates `n` data blocks into the pointers of `b` from index `from` on. */
    method FillPointers(b: int, from: nat, n: nat, ghost ino: nat, ghost base: nat)
      requires Valid() && 0 <= b < |disk| && owner[b].Meta? && from + n <= N && CountClear(used) >= n
      requires base + n <= Limit(limits, ino)
      modifies this`disk, this`used, this`owner
      ensures Valid() && Extends(old(owner), owner) && CountClear(used) == old(CountClear(used)) - n
      ensures |disk| == |old(disk)| && forall x | 0 <= x < |disk| && x != b :: disk[x] == old(disk)[x]
      ensures Holds1(owner, disk[b], from, n, ino, base)
      ensures forall i | 0 <= i < N && !(from <= i < from + n) :: disk[b][i] == old(disk)[b][i]
    {
      var buffer: seq<int> := disk[b];
      var i := from;
      while i < n + from
        invariant from <= i <= n + from && |buffer| == N
        invariant Valid() && disk == old(disk) && Extends(old(owner), owner)
        invariant CountClear(used) == old(CountClear(used)) - (i - from)
        invariant Holds1(owner, buffer, from, i - from, ino, base)
        invariant forall k | 0 <= k < N && !(from <= k < i) :: buffer[k] == old(disk)[b][k]
      {
        ghost var was := owner;
        var block := GetFreeBlock(Data(ino, base + i - from));
        Holds1Stays(disk, was, disk, owner, buffer, from, i - from, ino, base);
        buffer := buffer[i := block];
        i := i + 1;
      }
      disk := disk[b := buffer];
    }

    /** The single level: fills pointers of one block from index `numAllocated` on, and no further than
        the block goes. The block is the one given, or else the inode's, or else a new one. */
    method AllocateSingle(inode: Inode, numAllocated: nat, numRequested: nat, higherOrder: bool, blockNumber: int,
                          ghost base: nat)
      returns (single: int)
      requires Valid() && numAllocated <= N && base + Min(numRequested, N - numAllocated) <= Limit(limits, inode.number)
      requires base >= numAllocated && (blockNumber == 0 && !higherOrder ==> base - numAllocated == LEVEL_ONE)
      requires blockNumber == 0 || Owns(owner, blockNumber, Meta(inode.number, 1, base - numAllocated))
      requires inode.pointers.single == 0 || Owns(owner, inode.pointers.single, Meta(inode.number, 1, LEVEL_ONE))
      requires CountClear(used) >= Min(numRequested, N - numAllocated)
                                   + (if blockNumber == 0 && (higherOrder || inode.pointers.single == 0) then 1 else 0)
      modifies this`disk, this`used, this`owner, inode`pointers
      ensures Valid() && Extends(old(owner), owner)
      ensures single > 0 && Owns(owner, single, Meta(inode.number, 1, base - numAllocated))
      ensures blockNumber != 0 ==> single == blockNumber
      ensures blockNumber == 0 && !higherOrder && old(inode.pointers.single) != 0 ==>
        single == old(inode.pointers.single)
      ensures blockNumber == 0 && (higherOrder || old(inode.pointers.single) == 0) ==> old(owner)[single] == Free
      ensures CountClear(used) == old(CountClear(used)) - Min(numRequested, N - numAllocated)
        - (if old(owner)[single] == Free then 1 else 0)
      ensures |disk| == |old(disk)| && forall x | 0 <= x < |disk| && x != single :: disk[x] == old(disk)[x]
      ensures Holds1(owner, disk[single], numAllocated, Min(numRequested, N - numAllocated), inode.number, base)
      ensures forall i | 0 <= i < numAllocated :: disk[single][i] == old(disk)[single][i]
      ensures inode.pointers == if higherOrder || blockNumber != 0 then old(inode.pointers)
        else old(inode.pointers).(single := single)
    {
      var numToAllocate := numRequested;
      if numAllocated + numToAllocate >= N {
        numToAllocate := N - numAllocated;
      }
      single := PickSingle(inode, numAllocated, higherOrder, blockNumber, base);
      FillPointers(single, numAllocated, numToAllocate, inode.number, base);
    }

    /** The block that the single level fills: the one given, or else the inode's, or else a new one. */
    method PickSingle(inode: Inode, ghost numAllocated: nat, higherOrder: bool, blockNumber: int, ghost base: nat)
      returns (single: int)
      requires Valid() && base >= numAllocated &&
        (blockNumber == 0 && !higherOrder ==> base - numAllocated == LEVEL_ONE)
      requires blockNumber == 0 || Owns(owner, blockNumber, Meta(inode.number, 1, base - numAllocated))
      requires inode.pointers.single == 0 || Owns(owner, inode.pointers.single, Meta(inode.number, 1, LEVEL_ONE))
      requires blockNumber == 0 && (higherOrder || inode.pointers.single == 0) ==> CountClear(used) > 0
      modifies this`used, this`owner, inode`pointers
      ensures Valid() && Extends(old(owner), owner)
      ensures single > 0 && Owns(owner, single, Meta(inode.number, 1, base - numAllocated))
      ensures blockNumber != 0 ==> single == blockNumber
      ensures blockNumber == 0 && !higherOrder && old(inode.pointers.single) != 0 ==>
        single == old(inode.pointers.single)
      ensures old(owner)[single] == Free <==> blockNumber == 0 && (higherOrder || old(inode.pointers.single) == 0)
      ensures CountClear(used) == old(CountClear(used)) - (if old(owner)[single] == Free then 1 else 0)
      ensures inode.pointers == if higherOrder || blockNumber != 0 then old(inode.pointers)
        else old(inode.pointers).(single := single)
    {
      if higherOrder && blockNumber == 0 {
        single := GetFreeBlock(Meta(inode.number, 1, base - numAllocated));
      } else if !higherOrder && blockNumber == 0 {
        if inode.pointers.single == 0 {
          single := GetFreeBlock(Meta(inode.number, 1, base - numAllocated));
        } else {
          single := inode.pointers.single;
        }
        inode.pointers := inode.pointers.(single := single);
      } else {
        single := blockNumber;
      }
    }

    /** One turn of the double level's loop: a new depth-1 block with `amount` data blocks. */
    method AddSingle(inode: Inode, amount: nat, ghost buffer: seq<int>, ghost index: nat, ghost base: nat)
      returns (single: int)
      requires Valid() && 0 < amount <= N && index < N && base + index * N + amount <= Limit(limits, inode.number)
      requires Holds2(disk, owner, buffer, index * N, inode.number, base)
      requires inode.pointers.single == 0 || Owns(owner, inode.pointers.single, Meta(inode.number, 1, LEVEL_ONE))
      requires CountClear(used) > amount
      modifies this`disk, this`used, this`owner, inode`pointers
      ensures Valid() && Extends(old(owner), owner) && Keeps(old(owner), old(disk), disk)
      ensures Holds2(disk, owner, buffer[index := single], index * N + amount, inode.number, base)
      ensures CountClear(used) == old(CountClear(used)) - amount - 1
      ensures inode.pointers == old(inode.pointers)
    {
      single := AllocateSingle(inode, 0, amount, true, 0, base + index * N);
      Holds2Stays(old(disk), old(owner), disk, owner, buffer, index * N, inode.number, base);
      Holds2Grows(disk, owner, buffer, index, single, amount, inode.number, base);
    }

    /** The same as a step of the loop, which started from `o` and `d`. */
    method NextSingle(inode: Inode, left: nat, amount: nat, buffer: seq<int>, index: nat, ghost base: nat,
                      ghost o: seq<Owner>, ghost d: Disk)
      returns (next: seq<int>)
      requires Valid() && left > 0 && amount == Min(left, N) && index < N && |buffer| == N
      requires base + index * N + amount <= Limit(limits, inode.number)
      requires Holds2(disk, owner, buffer, index * N, inode.number, base)
      requires inode.pointers.single == 0 || Owns(owner, inode.pointers.single, Meta(inode.number, 1, LEVEL_ONE))
      requires CountClear(used) >= Cost2(left) - 1 && Extends(o, owner) && Keeps(o, d, disk)
      modifies this`disk, this`used, this`owner, inode`pointers
      ensures Valid() && Extends(o, owner) && Keeps(o, d, disk) && inode.pointers == old(inode.pointers)
      ensures Extends(old(owner), owner) && |next| == N
      ensures Holds2(disk, owner, next, index * N + amount, inode.number, base)
      ensures CountClear(used) - Cost2(left - amount) == old(CountClear(used)) - Cost2(left)
    {
      assert Cost2(left) == amount + 1 + Cost2(left - amount);
      var single := AddSingle(inode, amount, buffer, index, base);
      KeepsThen(o, old(owner), owner, d, old(disk), disk);
      next := buffer[index := single];
    }

    /** The double level's loop: puts `numRequested` data blocks, from `base` on, below a new depth-2 block. */
    method FillDouble(inode: Inode, double: int, numRequested: nat, ghost base: nat)
      requires Valid() && numRequested <= N2 && Owns(owner, double, Meta(inode.number, 2, base)) &&
        disk[double] == Zeros()
      requires base + numRequested <= Limit(limits, inode.number)
      requires inode.pointers.single == 0 || Owns(owner, inode.pointers.single, Meta(inode.number, 1, LEVEL_ONE))
      requires CountClear(used) >= Cost2(numRequested) - 1
      modifies this`disk, this`used, this`owner, inode`pointers
      ensures Valid() && Extends(old(owner), owner) && Keeps(old(owner), old(disk)[double := disk[double]], disk)
      ensures CountClear(used) == old(CountClear(used)) - Cost2(numRequested) + 1
      ensures Holds2(disk, owner, disk[double], numRequested, inode.number, base)
      ensures inode.pointers == old(inode.pointers)
    {
      ghost var held := 0;
      var buffer: seq<int> := disk[double];
      var index, numToAllocate := 0, numRequested;
      // A pointer read from the new block is 0, so every turn starts a new depth-1 block.
      while numToAllocate > 0
        invariant 0 <= index <= N && |buffer| == N && inode.pointers == old(inode.pointers)
        invariant held + numToAllocate == numRequested && numToAllocate >= 0
        invariant held <= index * N && (numToAllocate > 0 ==> held == index * N)
        invariant Valid() && Extends(old(owner), owner) && Keeps(old(owner), old(disk), disk)
        invariant CountClear(used) == old(CountClear(used)) - Cost2(numRequested) + Cost2(numToAllocate)
        invariant Holds2(disk, owner, buffer, held, inode.number, base)
        decreases numToAllocate
      {
        var amount := if numToAllocate < N then numToAllocate else N;
        buffer := NextSingle(inode, numToAllocate, amount, buffer, index, base, old(owner), old(disk));
        held := held + amount;
        numToAllocate := numToAllocate - amount;
        index := index + 1;
      }
      Seal2(double, buffer, numRequested, inode.number, base);
    }

    /** The double level from an empty start: a new depth-2 block whose subtree holds the `numRequested`
        data blocks from `base` on. */
    method AllocateDouble(inode: Inode, numRequested: nat, higherOrder: bool, ghost base: nat)
      returns (double: int)
      requires Valid() && numRequested <= N2 && base + numRequested <= Limit(limits, inode.number)
      requires higherOrder || inode.pointers.double == 0
      requires inode.pointers.single == 0 || Owns(owner, inode.pointers.single, Meta(inode.number, 1, LEVEL_ONE))
      requires CountClear(used) >= Cost2(numRequested)
      modifies this`disk, this`used, this`owner, inode`pointers
      ensures Valid() && Extends(old(owner), owner) && Keeps(old(owner), old(disk), disk)
      ensures double > 0 && Owns(owner, double, Meta(inode.number, 2, base)) && old(owner)[double] == Free
      ensures CountClear(used) == old(CountClear(used)) - Cost2(numRequested)
      ensures Holds2(disk, owner, disk[double], numRequested, inode.number, base)
      ensures inode.pointers == if higherOrder then old(inode.pointers) else old(inode.pointers).(double := double)
    {
      double := GetFreeBlock(Meta(inode.number, 2, base));
      if !higherOrder {
        inode.pointers := inode.pointers.(double := double);
      }
      ghost var marked := owner;
      FillDouble(inode, double, numRequested, base);
      KeepsNew(old(owner), marked, old(disk), double, disk);
    }

    /** Writes the pointers of a depth-2 block whose subtree is complete. */
    method Seal2(double: int, buffer: seq<int>, ghost n: nat, ghost ino: nat, ghost base: nat)
      requires Valid() && Owns(owner, double, Meta(ino, 2, base)) && Holds2(disk, owner, buffer, n, ino, base)
      modifies this`disk
      ensures Valid() && Holds2(disk, owner, disk[double], n, ino, base)
      ensures disk == old(disk)[double := buffer]
    {
      disk := disk[double := buffer];
      Holds2Stays(old(disk), owner, disk, owner, buffer, n, ino, base);
    }

    /** One turn of the triple level's loop: a new depth-2 block with `amount` data blocks below it. */
    method AddDouble(inode: Inode, amount: nat, ghost buffer: seq<int>, ghost index: nat, ghost base: nat)
      returns (double: int)
      requires Valid() && 0 < amount <= N2 && index < N && base + index * N2 + amount <= Limit(limits, inode.number)
      requires Holds3(disk, owner, buffer, index * N2, inode.number, base)
      requires inode.pointers.single == 0 || Owns(owner, inode.pointers.single, Meta(inode.number, 1, LEVEL_ONE))
      requires CountClear(used) >= Cost2(amount)
      modifies this`disk, this`used, this`owner, inode`pointers
      ensures Valid() && Extends(old(owner), owner) && Keeps(old(owner), old(disk), disk)
      ensures Holds3(disk, owner, buffer[index := double], index * N2 + amount, inode.number, base)
      ensures CountClear(used) == old(CountClear(used)) - Cost2(amount)
      ensures inode.pointers == old(inode.pointers)
    {
      double := AllocateDouble(inode, amount, true, base + index * N2);
      Holds3Stays(old(disk), old(owner), disk, owner, buffer, index * N2, inode.number, base);
      Holds3Grows(disk, owner, buffer, index, double, amount, inode.number, base);
    }

    /** The same as a step of the loop, which started from `o` and `d`. */
    method NextDouble(inode: Inode, left: nat, amount: nat, buffer: seq<int>, index: nat, ghost base: nat,
                      ghost o: seq<Owner>, ghost d: Disk)
      returns (next: seq<int>)
      requires Valid() && left > 0 && amount == Min(left, N2) && index < N && |buffer| == N
      requires base + index * N2 + amount <= Limit(limits, inode.number)
      requires Holds3(disk, owner, buffer, index * N2, inode.number, base)
      requires inode.pointers.single == 0 || Owns(owner, inode.pointers.single, Meta(inode.number, 1, LEVEL_ONE))
      requires CountClear(used) >= Cost3(left) - 1 && Extends(o, owner) && Keeps(o, d, disk)
      modifies this`disk, this`used, this`owner, inode`pointers
      ensures Valid() && Extends(o, owner) && Keeps(o, d, disk) && inode.pointers == old(inode.pointers)
      ensures Extends(old(owner), owner) && |next| == N
      ensures Holds3(disk, owner, next, index * N2 + amount, inode.number, base)
      ensures CountClear(used) - Cost3(left - amount) == old(CountClear(used)) - Cost3(left)
    {
      CostPositive(left - amount);
      assert Cost3(left) == Cost2(amount) + Cost3(left - amount);
      var double := AddDouble(inode, amount, buffer, index, base);
      KeepsThen(o, old(owner), owner, d, old(disk), disk);
      next := buffer[index := double];
    }

    /** The triple level from an empty start: a new depth-3 block whose subtree holds the `numRequested`
        data blocks from `base` on. */
    method AllocateTriple(inode: Inode, numRequested: nat, ghost base: nat) returns (triple: int)
      requires Valid() && numRequested <= N3 && inode.pointers.triple == 0
      requires base + numRequested <= Limit(limits, inode.number)
      requires inode.pointers.single == 0 || Owns(owner, inode.pointers.single, Meta(inode.number, 1, LEVEL_ONE))
      requires CountClear(used) >= Cost3(numRequested)
      modifies this`disk, this`used, this`owner, inode`pointers
      ensures Valid() && Extends(old(owner), owner) && Keeps(old(owner), old(disk), disk)
      ensures triple > 0 && Owns(owner, triple, Meta(inode.number, 3, base)) && old(owner)[triple] == Free
      ensures CountClear(used) == old(CountClear(used)) - Cost3(numRequested)
      ensures Holds3(disk, owner, disk[triple], numRequested, inode.number, base)
      ensures inode.pointers == old(inode.pointers).(triple := triple)
    {
      triple := GetFreeBlock(Meta(inode.number, 3, base));
      inode.pointers := inode.pointers.(triple := triple);
      ghost var marked := owner;
      FillTriple(inode, triple, numRequested, base);
      KeepsNew(old(owner), marked, old(disk), triple, disk);
    }

    /** The triple level's loop. */
    method FillTriple(inode: Inode, triple: int, numRequested: nat, ghost base: nat)
      requires Valid() && numRequested <= N3 && Owns(owner, triple, Meta(inode.number, 3, base)) &&
        disk[triple] == Zeros()
      requires base + numRequested <= Limit(limits, inode.number)
      requires inode.pointers.single == 0 || Owns(owner, inode.pointers.single, Meta(inode.number, 1, LEVEL_ONE))
      requires CountClear(used) >= Cost3(numRequested) - 1
      modifies this`disk, this`used, this`owner, inode`pointers
      ensures Valid() && Extends(old(owner), owner) && Keeps(old(owner), old(disk)[triple := disk[triple]], disk)
      ensures CountClear(used) == old(CountClear(used)) - Cost3(numRequested) + 1
      ensures Holds3(disk, owner, disk[triple], numRequested, inode.number, base)
      ensures inode.pointers == old(inode.pointers)
    {
      ghost var held := 0;
      var buffer: seq<int> := disk[triple];
      var index, numToAllocate := 0, numRequested;
      while numToAllocate > 0
        invariant 0 <= index <= N && |buffer| == N && inode.pointers == old(inode.pointers)
        invariant held + numToAllocate == numRequested && numToAllocate >= 0 && held >= 0
        invariant held <= index * N2 && (numToAllocate > 0 ==> held == index * N2)
        invariant Valid() && Extends(old(owner), owner) && Keeps(old(owner), old(disk), disk)
        invariant CountClear(used) == old(CountClear(used)) - Cost3(numRequested) + Cost3(numToAllocate)
        invariant Holds3(disk, owner, buffer, held, inode.number, base)
        decreases numToAllocate
      {
        var amount := if numToAllocate < N2 then numToAllocate else N2;
        buffer := NextDouble(inode, numToAllocate, amount, buffer, index, base, old(owner), old(disk));
        held := held + amount;
        numToAllocate := numToAllocate - amount;
        index := index + 1;
      }
      Seal3(triple, buffer, numRequested, inode.number, base);
    }

    /** Writes the pointers of a depth-3 block whose subtree is complete. */
    method Seal3(triple: int, buffer: seq<int>, ghost n: nat, ghost ino: nat, ghost base: nat)
      requires Valid() && Owns(owner, triple, Meta(ino, 3, base)) && Holds3(disk, owner, buffer, n, ino, base)
      modifies this`disk
      ensures Valid() && Holds3(disk, owner, disk[triple], n, ino, base)
      ensures disk == old(disk)[triple := buffer]
    {
      disk := disk[triple := buffer];
      Holds3Stays(old(disk), owner, disk, owner, buffer, n, ino, base);
    }
  }
}
