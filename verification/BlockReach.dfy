/** Which blocks the lookups of a file read, how many they are, and that an allocation marks exactly these. */
module BlockReach {
  import opened Prelude
  import opened BlockMap
  import opened BlockAllocation

  /** The data blocks of the first `n` logical blocks and the pointer blocks on the way to them. */
  ghost function Reach(disk: Disk, p: Pointers, n: nat): set<int>
    requires n <= MAX_LOGICAL && |p.direct| == NUM_BLOCKS_DIRECT
  {
    if n == 0 then {} else Reach(disk, p, n - 1) + {Lookup(disk, p, n - 1)} + LookupPath(disk, p, n - 1)
  }

  /** `x` is read on the way to one of the first `n` logical blocks. */
  ghost predicate OnPath(disk: Disk, p: Pointers, n: nat, x: int)
    requires n <= MAX_LOGICAL
  {
    exists b | 0 <= b < n :: x in LookupPath(disk, p, b)
  }

  lemma {:induction false} ReachIs(disk: Disk, p: Pointers, n: nat, x: int)
    requires n <= MAX_LOGICAL && |p.direct| == NUM_BLOCKS_DIRECT
    ensures x in Reach(disk, p, n) <==> OnPath(disk, p, n, x) || exists b | 0 <= b < n :: Lookup(disk, p, b) == x
  {
    if n > 0 {
      ReachIs(disk, p, n - 1, x);
      if x in LookupPath(disk, p, n - 1) || Lookup(disk, p, n - 1) == x {
        assert x in Reach(disk, p, n);
      }
    }
  }

  function One(condition: bool): nat
  {
    if condition then 1 else 0
  }

  /** How many pointer blocks have a subtree that starts at logical block `b`. */
  function Starting(b: nat): nat
  {
    if b < LEVEL_TWO then One(b == LEVEL_ONE)
    else if b < LEVEL_THREE then One((b - LEVEL_TWO) % N == 0) + One(b == LEVEL_TWO)
    else One((b - LEVEL_THREE) % N == 0) + One((b - LEVEL_THREE) % N2 == 0) + One(b == LEVEL_THREE)
  }

  lemma CeilingStep(m: nat, d: nat)
    requires d == N || d == N2
    ensures (m + 1 + d - 1) / d == (m + d - 1) / d + One(m % d == 0)
  {
  }

  /** The cost of a new file by the level it reaches. */
  lemma CostIs(num: nat)
    ensures num <= LEVEL_ONE ==> Cost(0, false, num) == num
    ensures LEVEL_ONE < num <= LEVEL_TWO ==> Cost(0, false, num) == num + 1
    ensures LEVEL_TWO < num <= LEVEL_THREE ==> Cost(0, false, num) == LEVEL_TWO + 1 + Cost2(num - LEVEL_TWO)
    ensures num > LEVEL_THREE ==> Cost(0, false, num) == LEVEL_TWO + 1 + Cost2(N2) + Cost3(num - LEVEL_THREE)
  {
  }

  lemma Cost2Step(m: nat)
    ensures Cost2(m + 1) == Cost2(m) + 1 + One(m % N == 0) && Cost2(0) == 1
  {
    Cost2ClosedForm(m);
    Cost2ClosedForm(m + 1);
    CeilingStep(m, N);
  }

  lemma Cost3Step(m: nat)
    ensures Cost3(m + 1) == Cost3(m) + 1 + One(m % N == 0) + One(m % N2 == 0) && Cost3(0) == 1
  {
    Cost3ClosedForm(m);
    Cost3ClosedForm(m + 1);
    CeilingStep(m, N);
    CeilingStep(m, N2);
  }

  lemma CostStepTwo(m: nat)
    requires m < N2
    ensures Cost(0, false, LEVEL_TWO + m + 1) == Cost(0, false, LEVEL_TWO + m) + 1 + Starting(LEVEL_TWO + m)
  {
    CostIs(LEVEL_TWO + m);
    CostIs(LEVEL_TWO + m + 1);
    Cost2Step(m);
  }

  lemma CostStepThree(m: nat)
    ensures Cost(0, false, LEVEL_THREE + m + 1) == Cost(0, false, LEVEL_THREE + m) + 1 + Starting(LEVEL_THREE + m)
  {
    CostIs(LEVEL_THREE + m);
    CostIs(LEVEL_THREE + m + 1);
    Cost3Step(m);
  }

  lemma CostStepLow(b: nat)
    requires b < LEVEL_TWO
    ensures Cost(0, false, b + 1) == Cost(0, false, b) + 1 + Starting(b)
  {
    CostIs(b);
    CostIs(b + 1);
    Cost2Step(0);
  }

  /** One more logical block costs itself and the pointer blocks that start with it. */
  lemma CostStep(b: nat)
    ensures Cost(0, false, b + 1) == Cost(0, false, b) + 1 + Starting(b)
  {
    if b >= LEVEL_THREE {
      CostStepThree(b - LEVEL_THREE);
    } else if b >= LEVEL_TWO {
      CostStepTwo(b - LEVEL_TWO);
    } else {
      CostStepLow(b);
    }
  }

  /** Every block that the lookups of `0 .. n` read is labelled for one of these logical blocks. */
  ghost predicate LabelledBelow(owner: seq<Owner>, x: int, ino: nat, n: nat)
  {
    0 <= x < |owner| && (owner[x].Data? || owner[x].Meta?) && owner[x].ino == ino
    && (if owner[x].Data? then owner[x].logical < n else owner[x].first < n)
  }

  lemma {:induction false} ReachLabelled(disk: Disk, owner: seq<Owner>, ino: nat, p: Pointers, count: nat, n: nat)
    requires Mapped(disk, owner, ino, p, count) && n <= count && forall x | 0 <= x < |disk| :: |disk[x]| == N
    ensures forall x | x in Reach(disk, p, n) :: LabelledBelow(owner, x, ino, n)
  {
    if n > 0 {
      ReachLabelled(disk, owner, ino, p, count, n - 1);
      LookupFindsData(disk, owner, ino, p, count, n - 1);
      assert Owns(owner, Lookup(disk, p, n - 1), Data(ino, n - 1));
    }
  }

  /** Up to three pointer blocks of different depths that start with `b`. */
  lemma PickStarting(owner: seq<Owner>, first: nat, t: int, ct: bool, u: int, cu: bool, v: int, cv: bool)
    returns (s: set<int>)
    requires ct ==> 0 <= t < |owner| && owner[t].Meta? && owner[t].depth == 3 && owner[t].first == first
    requires cu ==> 0 <= u < |owner| && owner[u].Meta? && owner[u].depth == 2 && owner[u].first == first
    requires cv ==> 0 <= v < |owner| && owner[v].Meta? && owner[v].depth == 1 && owner[v].first == first
    ensures |s| == One(ct) + One(cu) + One(cv) && s <= {t, u, v}
    ensures forall x | x in s :: 0 <= x < |owner| && owner[x].Meta? && owner[x].first == first
  {
    var a, b, c := if ct then {t} else {}, if cu then {u} else {}, if cv then {v} else {};
    s := a + b + c;
    assert |a + b| == |a| + |b|;
  }

  lemma ThirdIndices(b: nat)
    requires LEVEL_THREE <= b < MAX_LOGICAL
    ensures IndicesFor(b).level == 3 && IndicesFor(b).first == (b - LEVEL_THREE) % N
    ensures IndicesFor(b).first + IndicesFor(b).second * N == (b - LEVEL_THREE) % N2
  {
    var k := b - LEVEL_THREE;
    var m := k % N2;
    assert m == k - k / N2 * N2 && m % N == k % N && m == m / N * N + m % N;
  }

  /** The pointer blocks on the path of `b` that start with `b`. */
  lemma StartingOnPath(disk: Disk, owner: seq<Owner>, ino: nat, p: Pointers, count: nat, b: nat) returns (s: set<int>)
    requires Mapped(disk, owner, ino, p, count) && b < count && forall x | 0 <= x < |disk| :: |disk[x]| == N
    ensures |s| == Starting(b) && s <= LookupPath(disk, p, b)
    ensures forall x | x in s :: 0 <= x < |owner| && owner[x].Meta? && owner[x].first == b
  {
    if b >= LEVEL_THREE {
      s := StartingThree(disk, owner, ino, p, count, b);
    } else if b >= LEVEL_TWO {
      s := StartingTwo(disk, owner, ino, p, count, b);
    } else {
      s := PickStarting(owner, b, p.single, false, p.single, false, p.single, b == LEVEL_ONE);
    }
  }

  lemma StartingTwo(disk: Disk, owner: seq<Owner>, ino: nat, p: Pointers, count: nat, b: nat) returns (s: set<int>)
    requires Mapped(disk, owner, ino, p, count) && LEVEL_TWO <= b < count && b < LEVEL_THREE &&
      forall x | 0 <= x < |disk| :: |disk[x]| == N
    ensures |s| == Starting(b) && s <= LookupPath(disk, p, b)
    ensures forall x | x in s :: 0 <= x < |owner| && owner[x].Meta? && owner[x].first == b
  {
    LevelTwoFinds(disk, owner, ino, p, count, b);
    var r := IndicesFor(b);
    var second := disk[p.double][r.second];
    s := PickStarting(owner, b, second, false, p.double, b == LEVEL_TWO, second, r.first == 0);
  }

  lemma StartingThree(disk: Disk, owner: seq<Owner>, ino: nat, p: Pointers, count: nat, b: nat) returns (s: set<int>)
    requires Mapped(disk, owner, ino, p, count) && LEVEL_THREE <= b < count && forall x | 0 <= x < |disk| ::
      |disk[x]| == N
    ensures |s| == Starting(b) && s <= LookupPath(disk, p, b)
    ensures forall x | x in s :: 0 <= x < |owner| && owner[x].Meta? && owner[x].first == b
  {
    LevelThreeFinds(disk, owner, ino, p, count, b);
    ThirdIndices(b);
    var r := IndicesFor(b);
    var second := disk[p.triple][r.third];
    s := PickStarting(owner, b, p.triple, b == LEVEL_THREE, second, r.first + r.second * N == 0, disk[second][r.second],
      r.first == 0);
  }

  /** The lookups of `0 .. n` read at least as many blocks as an allocation of `n` blocks marks. */
  lemma {:induction false} ReachSize(disk: Disk, owner: seq<Owner>, ino: nat, p: Pointers, count: nat, n: nat)
    requires Mapped(disk, owner, ino, p, count) && n <= count && forall x | 0 <= x < |disk| :: |disk[x]| == N
    ensures |Reach(disk, p, n)| >= Cost(0, false, n)
  {
    if n > 0 {
      var b := n - 1;
      ReachSize(disk, owner, ino, p, count, b);
      ReachLabelled(disk, owner, ino, p, count, b);
      LookupFindsData(disk, owner, ino, p, count, b);
      var s := StartingOnPath(disk, owner, ino, p, count, b);
      CostStep(b);
      StepSize(Reach(disk, p, b), s, Lookup(disk, p, b), Reach(disk, p, n), owner, ino, b);
    }
  }

  lemma StepSize(a: set<int>, s: set<int>, x: int, r: set<int>, owner: seq<Owner>, ino: nat, b: nat)
    requires (forall y | y in a :: LabelledBelow(owner, y, ino, b)) && Owns(owner, x, Data(ino, b)) && a + s + {x} <= r
    requires forall y | y in s :: 0 <= y < |owner| && owner[y].Meta? && owner[y].first == b
    ensures |r| >= |a| + |s| + 1
  {
    forall y | y in a ensures y !in s {
      assert LabelledBelow(owner, y, ino, b);
    }
    UnionSize(a, s, x, r);
  }

  lemma UnionSize(a: set<int>, s: set<int>, x: int, r: set<int>)
    requires a !! s && x !in a && x !in s && a + s + {x} <= r
    ensures |r| >= |a| + |s| + 1
  {
    var u := a + s + {x};
    assert |u| == |a| + |s| + 1;
    SubsetSize(u, r);
  }

  lemma SubsetSize(a: set<int>, b: set<int>)
    requires a <= b
    ensures |a| <= |b| && (|a| == |b| ==> a == b)
  {
    assert b == a + (b - a);
  }

  // ------------------------------------------------------------------ what an allocation marks

  /** The bits that were clear and are set now. */
  ghost function NewMarks(was: seq<bool>, now: seq<bool>): set<int>
    requires |was| == |now|
  {
    set x | 0 <= x < |was| && !was[x] && now[x]
  }

  lemma {:induction false} NewMarksSize(was: seq<bool>, now: seq<bool>)
    requires |was| == |now| && forall x | 0 <= x < |was| && was[x] :: now[x]
    ensures |NewMarks(was, now)| == CountClear(was) - CountClear(now)
  {
    if was != [] {
      var n := |was| - 1;
      NewMarksSize(was[..n], now[..n]);
      var rest := NewMarks(was[..n], now[..n]);
      if !was[n] && now[n] {
        assert NewMarks(was, now) == rest + {n};
      } else {
        assert NewMarks(was, now) == rest;
      }
    }
  }

  /** An allocation to a fresh inode marks exactly the blocks that its lookups read. */
  lemma MarksAreReach(disk: Disk, owner: seq<Owner>, ino: nat, p: Pointers, num: nat, was: seq<bool>, now: seq<bool>)
    requires Mapped(disk, owner, ino, p, num) && (forall x | 0 <= x < |disk| :: |disk[x]| == N)
    requires |was| == |now| == |owner| && (forall x | 0 <= x < |was| && was[x] :: now[x])
    requires forall x | 0 <= x < |owner| && BelongsTo(owner[x], ino) :: !was[x] && now[x]
    requires CountClear(now) == CountClear(was) - Cost(0, false, num)
    ensures NewMarks(was, now) == Reach(disk, p, num)
  {
    ReachLabelled(disk, owner, ino, p, num, num);
    ReachSize(disk, owner, ino, p, num, num);
    NewMarksSize(was, now);
    SubsetSize(Reach(disk, p, num), NewMarks(was, now));
  }
}
