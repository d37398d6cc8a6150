/** What an installation that embeds stage 2 into the partition arrays leaves on the disk. */
module GptContents {
  import opened Prelude
  import opened Bytes
  import opened UndoLog
  import opened GptEmbedding
  import opened LimineInstall
  import opened GptInstall

  // ------------------------------------------------------------------ the writes of a run

  ghost predicate OpsFit(ops: seq<Op>, size: nat)
  {
    forall i | 0 <= i < |ops| :: OpFits(ops[i], size)
  }

  /** The contents after a run: the writes one after the other. */
  ghost function Applied(c: seq<Byte>, ops: seq<Op>): (r: seq<Byte>)
    requires OpsFit(ops, |c|)
    ensures |r| == |c|
    decreases |ops|
  {
    if ops == [] then c
    else
      var op, before := ops[|ops| - 1], Applied(c, ops[..|ops| - 1]);
      if op.Write? then Overwrite(before, op.loc, op.data) else before
  }

  lemma {:induction false} RunIsApplied(start: seq<Byte>, reach: nat, ops: seq<Op>)
    requires reach <= |start| && RunFlat(start, reach, ops).ok
    ensures OpsFit(ops, |start|) && RunFlat(start, reach, ops).contents == Applied(start, ops)
    decreases |ops|
  {
    RunOkExactly(start, reach, ops);
    if ops != [] {
      RunIsApplied(start, reach, ops[..|ops| - 1]);
    }
  }

  lemma {:induction false} AppliedConcat(c: seq<Byte>, a: seq<Op>, b: seq<Op>)
    requires OpsFit(a, |c|) && OpsFit(b, |c|)
    ensures OpsFit(a + b, |c|) && Applied(c, a + b) == Applied(Applied(c, a), b)
    decreases |b|
  {
    if b == [] {
      assert a + b == a;
    } else {
      AppliedConcat(c, a, b[..|b| - 1]);
      assert (a + b)[..|a + b| - 1] == a + b[..|b| - 1];
    }
  }

  predicate Avoids(op: Op, lo: nat, hi: nat)
  {
    op.Write? ==> op.loc + |op.data| <= lo || hi <= op.loc
  }

  ghost predicate AllAvoid(ops: seq<Op>, lo: nat, hi: nat)
  {
    forall i | 0 <= i < |ops| :: Avoids(ops[i], lo, hi)
  }

  /** A range that no write touches stays as it was. */
  lemma {:induction false} Untouched(c: seq<Byte>, ops: seq<Op>, lo: nat, hi: nat)
    requires OpsFit(ops, |c|) && AllAvoid(ops, lo, hi) && lo <= hi <= |c|
    ensures Applied(c, ops)[lo..hi] == c[lo..hi]
    decreases |ops|
  {
    if ops != [] {
      var n := |ops| - 1;
      Untouched(c, ops[..n], lo, hi);
      var before, after := Applied(c, ops[..n]), Applied(c, ops);
      assert Avoids(ops[n], lo, hi);
      forall p | lo <= p < hi ensures after[p] == c[p] {
        assert before[lo..hi][p - lo] == c[lo..hi][p - lo];
      }
    }
  }

  lemma LandsLast(c: seq<Byte>, ops: seq<Op>, lo: nat, hi: nat)
    requires OpsFit(ops, |c|) && ops != [] && ops[|ops| - 1].Write?
    requires var op := ops[|ops| - 1]; op.loc <= lo < hi <= op.loc + |op.data|
    ensures var op := ops[|ops| - 1]; hi <= |c| && Applied(c, ops)[lo..hi] == op.data[lo - op.loc..hi - op.loc]
  {
    var op := ops[|ops| - 1];
    assert OpFits(op, |c|);
    OverwriteHolds(Applied(c, ops[..|ops| - 1]), op.loc, op.data, lo, hi);
  }

  lemma OverwriteHolds(c: seq<Byte>, loc: nat, data: seq<Byte>, lo: nat, hi: nat)
    requires loc + |data| <= |c| && loc <= lo < hi <= loc + |data|
    ensures Overwrite(c, loc, data)[lo..hi] == data[lo - loc..hi - loc]
  {
    var r := Overwrite(c, loc, data);
    assert forall p | lo <= p < hi :: r[p] == data[p - loc];
  }

  /** A part of a write that no later write touches holds what was written. */
  lemma Lands(c: seq<Byte>, ops: seq<Op>, k: nat, lo: nat, hi: nat)
    requires OpsFit(ops, |c|) && k < |ops| && ops[k].Write? && AllAvoid(ops[k + 1..], lo, hi)
    requires ops[k].loc <= lo < hi <= ops[k].loc + |ops[k].data|
    ensures hi <= |c| && Applied(c, ops)[lo..hi] == ops[k].data[lo - ops[k].loc..hi - ops[k].loc]
  {
    var first, rest := ops[..k + 1], ops[k + 1..];
    assert ops == first + rest;
    AppliedConcat(c, first, rest);
    LandsLast(c, first, lo, hi);
    Untouched(Applied(c, first), rest, lo, hi);
  }

  // ------------------------------------------------------------------ clearing

  lemma {:induction false} ClearingAt(base: nat, entry: nat, from: nat, count: int, i: nat)
    requires i < |Clearing(base, entry, from, count)|
    ensures Clearing(base, entry, from, count)[i] == Write(base + Multiple(entry, from + i), ZeroBytes(entry))
    decreases i
  {
    if i > 0 {
      ClearingAt(base, entry, from + 1, count, i - 1);
    } else {
      MultipleIsProduct(entry, from);
    }
  }

  /** The clearing stays between its first entry and its last. */
  lemma ClearingAvoids(base: nat, entry: nat, from: nat, count: nat, lo: nat, hi: nat)
    requires base + Multiple(entry, count) <= lo || hi <= base + Multiple(entry, from)
    ensures AllAvoid(Clearing(base, entry, from, count), lo, hi)
  {
    var ops := Clearing(base, entry, from, count);
    forall i | 0 <= i < |ops| ensures Avoids(ops[i], lo, hi) {
      ClearingAt(base, entry, from, count, i);
      MultipleMonotone(entry, from + i, count);
      MultipleMonotone(entry, from, from + i);
    }
  }

  lemma LaterAvoid(base: nat, entry: nat, from: nat, count: nat, e: nat, lo: nat, ops: seq<Op>)
    requires from <= e < count && lo == base + Multiple(entry, e) && ops == Clearing(base, entry, from, count)
    ensures AllAvoid(ops[e - from + 1..], lo, lo + entry)
  {
    var later := ops[e - from + 1..];
    forall i | 0 <= i < |later| ensures Avoids(later[i], lo, lo + entry) {
      ClearingAt(base, entry, from, count, e - from + 1 + i);
      MultipleMonotone(entry, e, e + 1 + i);
    }
  }

  /** Every entry from the first to the last is zero afterwards. */
  lemma ClearingZeroes(c: seq<Byte>, base: nat, entry: nat, from: nat, count: nat, e: nat, lo: nat, ops: seq<Op>)
    requires from <= e < count && entry > 0 && lo == base + Multiple(entry, e) &&
      ops == Clearing(base, entry, from, count)
    requires OpsFit(ops, |c|)
    ensures lo + entry <= |c| && Applied(c, ops)[lo..lo + entry] == ZeroBytes(entry)
  {
    ClearingAt(base, entry, from, count, e - from);
    LaterAvoid(base, entry, from, count, e, lo, ops);
    ZeroesLand(c, ops, e - from, lo, entry);
  }

  lemma ZeroesLand(c: seq<Byte>, ops: seq<Op>, k: nat, lo: nat, entry: nat)
    requires OpsFit(ops, |c|) && k < |ops| && ops[k] == Write(lo, ZeroBytes(entry)) && entry > 0
    requires AllAvoid(ops[k + 1..], lo, lo + entry)
    ensures lo + entry <= |c| && Applied(c, ops)[lo..lo + entry] == ZeroBytes(entry)
  {
    Lands(c, ops, k, lo, lo + entry);
    assert ops[k].data[0..entry] == ops[k].data;
  }

  /** The `n` bytes at `lo`. */
  ghost function BytesAt(c: seq<Byte>, lo: nat, n: nat): seq<Byte>
  {
    if lo + n <= |c| then c[lo..lo + n] else []
  }

  // ------------------------------------------------------------------ the writes behind the clearing

  /** The writes of stage 2 with what they hold and where. */
  datatype Stage = Stage(boot: seq<Byte>, locA: nat, partA: seq<Byte>, locB: nat, partB: seq<Byte>, sizeB: nat,
                         timestamp: seq<Byte>, table: seq<Byte>)

  function StageOps(t: Stage): seq<Op>
  {
    [Read(218, 6), Read(440, 70), Write(0, t.boot), Write(t.locA, t.partA), Write(t.locB, t.partB),
     Write(0x1a4, LittleEndian(|t.partA|, 2)), Write(0x1a6, LittleEndian(t.sizeB, 2)),
     Write(0x1a8, LittleEndian(t.locA, 8)), Write(0x1b0, LittleEndian(t.locB, 8)),
     Write(218, t.timestamp), Write(440, t.table), Flush]
  }

  ghost predicate StageClear(t: Stage)
  {
    && |t.boot| == 512 && |t.timestamp| == 6 && |t.table| == 70 && 0 < |t.partA| < 65536
    && 0 < |t.partB| <= t.sizeB < 65536
    && 512 <= t.locA < TWO_TO_64 && 512 <= t.locB < TWO_TO_64
    && (t.locA + |t.partA| <= t.locB || t.locB + |t.partB| <= t.locA)
  }

  /** A number in little-endian bytes. */
  ghost function NumberAt(c: seq<Byte>, lo: nat, n: nat): nat
  {
    FromLittleEndian(BytesAt(c, lo, n))
  }

  /** Where write `i` goes and how long it is. */
  function Loc(t: Stage, i: nat): nat
  {
    match i
    case 2 => 0
    case 3 => t.locA
    case 4 => t.locB
    case 5 => 0x1a4
    case 6 => 0x1a6
    case 7 => 0x1a8
    case 8 => 0x1b0
    case 9 => 218
    case _ => 440
  }

  function Len(t: Stage, i: nat): nat
  {
    match i
    case 2 => |t.boot|
    case 3 => |t.partA|
    case 4 => |t.partB|
    case 5 => 2
    case 6 => 2
    case 7 => 8
    case 8 => 8
    case 9 => |t.timestamp|
    case _ => |t.table|
  }

  lemma OpAt(t: Stage, i: nat)
    requires 2 <= i <= 10
    ensures StageOps(t)[i].Write? && StageOps(t)[i].loc == Loc(t, i) && |StageOps(t)[i].data| == Len(t, i)
  {
  }

  lemma PairApart(t: Stage, k: nat, i: nat, lo: nat, hi: nat)
    requires StageClear(t) && 2 <= k < i <= 10 && Loc(t, k) <= lo < hi <= Loc(t, k) + Len(t, k)
    requires k == 2 ==> hi <= 218 || (224 <= lo && hi <= 0x1a4) || 510 <= lo
    ensures Loc(t, i) + Len(t, i) <= lo || hi <= Loc(t, i)
  {
  }

  /** The writes are those of stage 2, by place and length. */
  ghost predicate Places(ops: seq<Op>, t: Stage)
  {
    && |ops| == 12 && !ops[11].Write?
    && forall i | 2 <= i <= 10 :: ops[i].Write? && ops[i].loc == Loc(t, i) && |ops[i].data| == Len(t, i)
  }

  lemma StagePlaces(t: Stage)
    ensures Places(StageOps(t), t)
  {
    forall i | 2 <= i <= 10
      ensures StageOps(t)[i].Write? && StageOps(t)[i].loc == Loc(t, i) && |StageOps(t)[i].data| == Len(t, i)
    {
      OpAt(t, i);
    }
  }

  /** What a write of stage 2 holds is there afterwards, but for what the later ones put over the boot sector. */
  lemma StageLands(c: seq<Byte>, ops: seq<Op>, t: Stage, k: nat, lo: nat, hi: nat)
    requires StageClear(t) && Places(ops, t) && OpsFit(ops, |c|) && 2 <= k <= 10
    requires Loc(t, k) <= lo < hi <= Loc(t, k) + Len(t, k)
    requires k == 2 ==> hi <= 218 || (224 <= lo && hi <= 0x1a4) || 510 <= lo
    ensures hi <= |c| && Applied(c, ops)[lo..hi] == ops[k].data[lo - Loc(t, k)..hi - Loc(t, k)]
  {
    var later := ops[k + 1..];
    forall i | 0 <= i < |later| ensures Avoids(later[i], lo, hi) {
      assert later[i] == ops[k + 1 + i];
      if k + 1 + i <= 10 {
        PairApart(t, k, k + 1 + i, lo, hi);
      }
    }
    Lands(c, ops, k, lo, hi);
  }

  /** The whole of a write behind the boot sector's. */
  lemma StageHolds(c: seq<Byte>, ops: seq<Op>, t: Stage, k: nat)
    requires StageClear(t) && Places(ops, t) && OpsFit(ops, |c|) && 3 <= k <= 10
    ensures BytesAt(Applied(c, ops), Loc(t, k), Len(t, k)) == ops[k].data
  {
    StageLands(c, ops, t, k, Loc(t, k), Loc(t, k) + Len(t, k));
    assert ops[k].data[0..|ops[k].data|] == ops[k].data;
  }

  /** The numbers in the boot sector say where the halves of stage 2 are and how long. */
  lemma StageNumbers(c: seq<Byte>, t: Stage)
    requires StageClear(t) && OpsFit(StageOps(t), |c|)
    ensures var r := Applied(c, StageOps(t));
      && NumberAt(r, 0x1a4, 2) == |t.partA| && NumberAt(r, 0x1a6, 2) == t.sizeB
      && NumberAt(r, 0x1a8, 8) == t.locA && NumberAt(r, 0x1b0, 8) == t.locB
  {
    Powers256();
    StagePlaces(t);
    var ops := StageOps(t);
    StageHolds(c, ops, t, 5);
    StageHolds(c, ops, t, 6);
    StageHolds(c, ops, t, 7);
    StageHolds(c, ops, t, 8);
    LittleEndianRoundTrip(|t.partA|, 2);
    LittleEndianRoundTrip(t.sizeB, 2);
    LittleEndianRoundTrip(t.locA, 8);
    LittleEndianRoundTrip(t.locB, 8);
  }

  lemma Powers256()
    ensures Pow256(2) == 65536 && Pow256(8) == TWO_TO_64
  {
    assert Pow256(4) == 0x1_0000_0000;
    assert Pow256(6) == 256 * (256 * Pow256(4));
    assert Pow256(8) == 256 * (256 * Pow256(6));
  }

  /** What boots: the bytes that the boot sector's numbers lead to. */
  ghost function Loaded(c: seq<Byte>): seq<Byte>
  {
    BytesAt(c, NumberAt(c, 0x1a8, 8), NumberAt(c, 0x1a4, 2)) + BytesAt(c, NumberAt(c, 0x1b0, 8), NumberAt(c, 0x1a6, 2))
  }

  lemma StageLoads(c: seq<Byte>, t: Stage)
    requires StageClear(t) && OpsFit(StageOps(t), |c|) && t.locB + t.sizeB <= |c|
    ensures t.partA + t.partB <= Loaded(Applied(c, StageOps(t)))
  {
    StageNumbers(c, t);
    StageParts(c, t);
    PrefixLoaded(Applied(c, StageOps(t)), t);
  }

  /** The halves of stage 2, the saved bytes and the rest of the boot sector are in place. */
  ghost predicate InPlace(r: seq<Byte>, t: Stage)
    requires |t.boot| == 512
  {
    && BytesAt(r, t.locA, |t.partA|) == t.partA && BytesAt(r, t.locB, |t.partB|) == t.partB
    && BytesAt(r, 218, 6) == t.timestamp && BytesAt(r, 440, 70) == t.table
    && BytesAt(r, 0, 218) == t.boot[..218] && BytesAt(r, 224, 196) == t.boot[224..420]
    && BytesAt(r, 510, 2) == t.boot[510..512]
  }

  /** The writes hold what stage 2 says. */
  ghost predicate Carries(ops: seq<Op>, t: Stage)
    requires Places(ops, t)
  {
    && ops[2].data == t.boot && ops[3].data == t.partA && ops[4].data == t.partB && ops[9].data == t.timestamp
    && ops[10].data == t.table
  }

  lemma StageParts(c: seq<Byte>, t: Stage)
    requires StageClear(t) && OpsFit(StageOps(t), |c|)
    ensures InPlace(Applied(c, StageOps(t)), t)
  {
    StagePlaces(t);
    PartsInPlace(c, StageOps(t), t);
  }

  lemma PartsInPlace(c: seq<Byte>, ops: seq<Op>, t: Stage)
    requires StageClear(t) && OpsFit(ops, |c|) && Places(ops, t) && Carries(ops, t)
    ensures InPlace(Applied(c, ops), t)
  {
    StageHolds(c, ops, t, 3);
    StageHolds(c, ops, t, 4);
    StageHolds(c, ops, t, 9);
    StageHolds(c, ops, t, 10);
    StageLands(c, ops, t, 2, 0, 218);
    StageLands(c, ops, t, 2, 224, 420);
    StageLands(c, ops, t, 2, 510, 512);
  }

  lemma PrefixLoaded(r: seq<Byte>, t: Stage)
    requires BytesAt(r, t.locA, |t.partA|) == t.partA && BytesAt(r, t.locB, |t.partB|) == t.partB
    requires t.locB + t.sizeB <= |r| && 0 < |t.partB| <= t.sizeB
    ensures t.partA + t.partB <= BytesAt(r, t.locA, |t.partA|) + BytesAt(r, t.locB, t.sizeB)
  {
    var b := BytesAt(r, t.locB, t.sizeB);
    assert b[..|t.partB|] == BytesAt(r, t.locB, |t.partB|);
    assert b == b[..|t.partB|] + b[|t.partB|..];
  }

  lemma StageAvoids(t: Stage, lo: nat, hi: nat)
    requires StageClear(t) && 512 <= lo && (t.locA + |t.partA| <= lo || hi <= t.locA)
    requires t.locB + |t.partB| <= lo || hi <= t.locB
    ensures AllAvoid(StageOps(t), lo, hi)
  {
    StagePlaces(t);
    var ops := StageOps(t);
    forall i | 0 <= i < |ops| ensures Avoids(ops[i], lo, hi) {
      if 2 <= i <= 10 { OpAt(t, i); }
    }
  }

  // ------------------------------------------------------------------ a whole installation

  /** An installation by its addresses: the two arrays, their entries, the first unused one and the number that remains,
      where the used and the remaining entries of each array end, the two headers, and stage 2. */
  datatype Plan = Plan(arrayA: nat, endA: nat, entryA: nat, arrayB: nat, endB: nat, entryB: nat, unused: nat, left: nat,
                       usedA: nat, lastA: nat, usedB: nat, lastB: nat, listed: nat, headA: nat, headerA: seq<Byte>,
                       headB: nat, headerB: seq<Byte>, stage: Stage)

  function HeaderOps(p: Plan): seq<Op>
  {
    [Read(p.arrayA, p.listed), Write(p.headA, p.headerA), Write(p.headB, p.headerB)]
  }

  function ClearA(p: Plan): seq<Op>
  {
    Clearing(p.arrayA, p.entryA, p.unused, p.left)
  }

  function ClearB(p: Plan): seq<Op>
  {
    Clearing(p.arrayB, p.entryB, p.unused, p.left)
  }

  function PlanOps(before: seq<Op>, p: Plan): seq<Op>
  {
    before + ClearA(p) + ClearB(p) + HeaderOps(p) + StageOps(p.stage)
  }

  predicate Disjoint(lo: nat, hi: nat, from: nat, to: nat)
  {
    hi <= from || to <= lo
  }

  /** Boot sector, headers and arrays lie apart, and each half behind the entries that remain. */
  ghost predicate PlanClear(p: Plan, size: nat)
  {
    var t := p.stage;
    && StageClear(t) && p.unused <= p.left && p.entryA > 0 && p.entryB > 0 && p.endA <= size && p.endB <= size
    && |p.headerA| == |p.headerB| == HEADER_SIZE && 512 <= p.headA && 512 <= p.headB && 512 <= p.arrayA
    && 512 <= p.arrayB
    && p.arrayA <= p.usedA <= p.lastA <= t.locA && t.locA + |t.partA| <= p.endA
    && p.arrayB <= p.usedB <= p.lastB <= t.locB && t.locB + t.sizeB <= p.endB
    && Disjoint(p.arrayA, p.endA, p.arrayB, p.endB)
    && Disjoint(p.headA, p.headA + HEADER_SIZE, p.headB, p.headB + HEADER_SIZE)
    && Disjoint(p.arrayA, p.endA, p.headA, p.headA + HEADER_SIZE)
    && Disjoint(p.arrayA, p.endA, p.headB, p.headB + HEADER_SIZE)
    && Disjoint(p.arrayB, p.endB, p.headA, p.headA + HEADER_SIZE)
    && Disjoint(p.arrayB, p.endB, p.headB, p.headB + HEADER_SIZE)
  }

  lemma AvoidConcat(a: seq<Op>, b: seq<Op>, lo: nat, hi: nat)
    requires AllAvoid(a, lo, hi) && AllAvoid(b, lo, hi)
    ensures AllAvoid(a + b, lo, hi)
  {
  }

  ghost predicate OnlyReads(ops: seq<Op>)
  {
    forall i | 0 <= i < |ops| :: ops[i].Read?
  }

  /** The headers leave a range of the arrays alone. */
  lemma HeadersAvoid(p: Plan, size: nat, lo: nat, hi: nat)
    requires PlanClear(p, size) && ((p.arrayA <= lo && hi <= p.endA) || (p.arrayB <= lo && hi <= p.endB))
    ensures AllAvoid(HeaderOps(p), lo, hi)
  {
  }

  ghost predicate Ends(p: Plan)
  {
    && p.usedA == p.arrayA + Multiple(p.entryA, p.unused) && p.lastA == p.arrayA + Multiple(p.entryA, p.left)
    && p.usedB == p.arrayB + Multiple(p.entryB, p.unused) && p.lastB == p.arrayB + Multiple(p.entryB, p.left)
  }

  lemma ClearAvoids(p: Plan, lo: nat, hi: nat)
    requires Ends(p)
    ensures p.lastA <= lo || hi <= p.usedA ==> AllAvoid(ClearA(p), lo, hi)
    ensures p.lastB <= lo || hi <= p.usedB ==> AllAvoid(ClearB(p), lo, hi)
  {
    if p.lastA <= lo || hi <= p.usedA { ClearingAvoids(p.arrayA, p.entryA, p.unused, p.left, lo, hi); }
    if p.lastB <= lo || hi <= p.usedB { ClearingAvoids(p.arrayB, p.entryB, p.unused, p.left, lo, hi); }
  }

  /** The operations behind the clearing of array A leave its remaining entries alone; those behind the clearing of
      array B leave both arrays' alone. */
  lemma RestAvoids(p: Plan, size: nat, lo: nat, hi: nat)
    requires PlanClear(p, size) && ((p.arrayA <= lo && hi <= p.lastA) || (p.arrayB <= lo && hi <= p.lastB))
    ensures AllAvoid(HeaderOps(p) + StageOps(p.stage), lo, hi)
  {
    HeadersAvoid(p, size, lo, hi);
    StageAvoids(p.stage, lo, hi);
    AvoidConcat(HeaderOps(p), StageOps(p.stage), lo, hi);
  }

  /** The entries in use stay as they were. */
  lemma UsedKept(c: seq<Byte>, before: seq<Op>, p: Plan, lo: nat, hi: nat)
    requires PlanClear(p, |c|) && Ends(p) && OnlyReads(before) && OpsFit(PlanOps(before, p), |c|)
    requires lo <= hi && ((p.arrayA <= lo && hi <= p.usedA) || (p.arrayB <= lo && hi <= p.usedB))
    ensures hi <= |c| && Applied(c, PlanOps(before, p))[lo..hi] == c[lo..hi]
  {
    ClearAvoids(p, lo, hi);
    RestAvoids(p, |c|, lo, hi);
    JoinedAvoid(before, ClearA(p), ClearB(p), HeaderOps(p), StageOps(p.stage), lo, hi);
    Untouched(c, PlanOps(before, p), lo, hi);
  }

  lemma JoinedAvoid(before: seq<Op>, a: seq<Op>, b: seq<Op>, h: seq<Op>, t: seq<Op>, lo: nat, hi: nat)
    requires OnlyReads(before) && AllAvoid(a, lo, hi) && AllAvoid(b, lo, hi) && AllAvoid(h + t, lo, hi)
    ensures AllAvoid(before + a + b + h + t, lo, hi)
  {
    assert before + a + b + h + t == before + a + b + (h + t);
  }

  /** What the first operations leave in a range that the others avoid is there at the end. */
  lemma Remains(c: seq<Byte>, first: seq<Op>, rest: seq<Op>, lo: nat, hi: nat)
    requires OpsFit(first, |c|) && OpsFit(rest, |c|) && AllAvoid(rest, lo, hi) && lo <= hi <= |c|
    ensures OpsFit(first + rest, |c|) && Applied(c, first + rest)[lo..hi] == Applied(c, first)[lo..hi]
  {
    AppliedConcat(c, first, rest);
    Untouched(Applied(c, first), rest, lo, hi);
  }

  /** A clearing in the middle of a run, whose entries the rest of the run leaves alone. */
  lemma ClearedRemains(c: seq<Byte>, first: seq<Op>, clear: seq<Op>, rest: seq<Op>, base: nat, entry: nat, from: nat,
                       count: nat, e: nat, lo: nat)
    requires OpsFit(first + clear + rest, |c|) && clear == Clearing(base, entry, from, count) && from <= e < count
    requires entry > 0 && lo == base + Multiple(entry, e) && AllAvoid(rest, lo, lo + entry)
    ensures lo + entry <= |c| && Applied(c, first + clear + rest)[lo..lo + entry] == ZeroBytes(entry)
  {
    ThreePartsFit(first, clear, rest, |c|);
    var mid := Applied(c, first);
    ClearingZeroes(mid, base, entry, from, count, e, lo, clear);
    MiddleRemains(c, mid, first, clear, rest, lo, lo + entry, ZeroBytes(entry));
  }

  lemma ThreePartsFit(first: seq<Op>, middle: seq<Op>, rest: seq<Op>, size: nat)
    requires OpsFit(first + middle + rest, size)
    ensures OpsFit(first, size) && OpsFit(middle, size) && OpsFit(rest, size)
  {
    PartsFit(first + middle, rest, size);
    PartsFit(first, middle, size);
  }

  lemma MiddleRemains(c: seq<Byte>, mid: seq<Byte>, first: seq<Op>, middle: seq<Op>, rest: seq<Op>, lo: nat, hi: nat,
                      bytes: seq<Byte>)
    requires OpsFit(first, |c|) && OpsFit(middle, |c|) && OpsFit(rest, |c|) && AllAvoid(rest, lo, hi) && lo <= hi <= |c|
    requires mid == Applied(c, first) && Applied(mid, middle)[lo..hi] == bytes
    ensures OpsFit(first + middle + rest, |c|)
    ensures Applied(c, first + middle + rest)[lo..hi] == bytes
  {
    AppliedConcat(c, first, middle);
    Remains(c, first + middle, rest, lo, hi);
  }

  /** The entries from the first unused one on are cleared. */
  lemma UnusedClearedA(c: seq<Byte>, before: seq<Op>, p: Plan, e: nat, lo: nat)
    requires PlanClear(p, |c|) && Ends(p) && OpsFit(PlanOps(before, p), |c|) && p.unused <= e < p.left
    requires lo == p.arrayA + Multiple(p.entryA, e) && p.arrayA <= lo && lo + p.entryA <= p.lastA
    ensures lo + p.entryA <= |c| && Applied(c, PlanOps(before, p))[lo..lo + p.entryA] == ZeroBytes(p.entryA)
  {
    var rest := ClearB(p) + (HeaderOps(p) + StageOps(p.stage));
    ClearAvoids(p, lo, lo + p.entryA);
    RestAvoids(p, |c|, lo, lo + p.entryA);
    AvoidConcat(ClearB(p), HeaderOps(p) + StageOps(p.stage), lo, lo + p.entryA);
    assert PlanOps(before, p) == before + ClearA(p) + rest;
    ClearedRemains(c, before, ClearA(p), rest, p.arrayA, p.entryA, p.unused, p.left, e, lo);
  }

  lemma UnusedClearedB(c: seq<Byte>, before: seq<Op>, p: Plan, e: nat, lo: nat)
    requires PlanClear(p, |c|) && Ends(p) && OpsFit(PlanOps(before, p), |c|) && p.unused <= e < p.left
    requires lo == p.arrayB + Multiple(p.entryB, e) && p.arrayB <= lo && lo + p.entryB <= p.lastB
    ensures lo + p.entryB <= |c| && Applied(c, PlanOps(before, p))[lo..lo + p.entryB] == ZeroBytes(p.entryB)
  {
    var rest := HeaderOps(p) + StageOps(p.stage);
    RestAvoids(p, |c|, lo, lo + p.entryB);
    assert PlanOps(before, p) == before + ClearA(p) + ClearB(p) + rest;
    ClearedRemains(c, before + ClearA(p), ClearB(p), rest, p.arrayB, p.entryB, p.unused, p.left, e, lo);
  }

  lemma PartsFit(a: seq<Op>, b: seq<Op>, size: nat)
    requires OpsFit(a + b, size)
    ensures OpsFit(a, size) && OpsFit(b, size)
  {
    forall i | 0 <= i < |a| ensures OpFits(a[i], size) { assert (a + b)[i] == a[i]; }
    forall i | 0 <= i < |b| ensures OpFits(b[i], size) { assert (a + b)[|a| + i] == b[i]; }
  }

  /** Stage 2 and the boot sector are in place, and loading finds stage 2. */
  lemma PlanLoads(c: seq<Byte>, before: seq<Op>, p: Plan)
    requires PlanClear(p, |c|) && OpsFit(PlanOps(before, p), |c|)
    ensures var r := Applied(c, PlanOps(before, p));
      InPlace(r, p.stage) && p.stage.partA + p.stage.partB <= Loaded(r)
  {
    var first := before + ClearA(p) + ClearB(p) + HeaderOps(p);
    PartsFit(first, StageOps(p.stage), |c|);
    AppliedConcat(c, first, StageOps(p.stage));
    StageParts(Applied(c, first), p.stage);
    StageLoads(Applied(c, first), p.stage);
  }

  /** The two headers are in place. */
  lemma PlanHeads(c: seq<Byte>, before: seq<Op>, p: Plan)
    requires PlanClear(p, |c|) && OpsFit(PlanOps(before, p), |c|)
    ensures var r := Applied(c, PlanOps(before, p));
      BytesAt(r, p.headA, HEADER_SIZE) == p.headerA && BytesAt(r, p.headB, HEADER_SIZE) == p.headerB
  {
    HeadsRemain(c, before + ClearA(p) + ClearB(p), p);
  }

  lemma HeadsRemain(c: seq<Byte>, first: seq<Op>, p: Plan)
    requires PlanClear(p, |c|) && OpsFit(first + HeaderOps(p) + StageOps(p.stage), |c|)
    ensures var r := Applied(c, first + HeaderOps(p) + StageOps(p.stage));
      BytesAt(r, p.headA, HEADER_SIZE) == p.headerA && BytesAt(r, p.headB, HEADER_SIZE) == p.headerB
  {
    var all := first + HeaderOps(p);
    var k := |first|;
    assert all[k + 1] == Write(p.headA, p.headerA) && all[k + 2] == Write(p.headB, p.headerB);
    assert all[k + 2..] == [all[k + 2]] && all[k + 3..] == [];
    StageAvoids(p.stage, p.headA, p.headA + HEADER_SIZE);
    StageAvoids(p.stage, p.headB, p.headB + HEADER_SIZE);
    HeadRemains(c, all, k + 1, p.headA, p.headerA, StageOps(p.stage));
    HeadRemains(c, all, k + 2, p.headB, p.headerB, StageOps(p.stage));
  }

  lemma HeadRemains(c: seq<Byte>, ops: seq<Op>, k: nat, at: nat, header: seq<Byte>, rest: seq<Op>)
    requires OpsFit(ops + rest, |c|) && k < |ops| && ops[k] == Write(at, header) && |header| == HEADER_SIZE
    requires AllAvoid(ops[k + 1..], at, at + HEADER_SIZE) && AllAvoid(rest, at, at + HEADER_SIZE)
    ensures BytesAt(Applied(c, ops + rest), at, HEADER_SIZE) == header
  {
    PartsFit(ops, rest, |c|);
    HeadLands(c, ops, k, at, header);
    Remains(c, ops, rest, at, at + HEADER_SIZE);
  }

  lemma HeadLands(c: seq<Byte>, ops: seq<Op>, k: nat, at: nat, header: seq<Byte>)
    requires OpsFit(ops, |c|) && k < |ops| && ops[k] == Write(at, header) && |header| == HEADER_SIZE
    requires AllAvoid(ops[k + 1..], at, at + HEADER_SIZE)
    ensures at + HEADER_SIZE <= |c| && Applied(c, ops)[at..at + HEADER_SIZE] == header
  {
    Lands(c, ops, k, at, at + HEADER_SIZE);
    assert header[0..HEADER_SIZE] == header;
  }

  // ------------------------------------------------------------------ what the run reads

  function ReadCount(ops: seq<Op>): nat
  {
    if ops == [] then 0 else ReadCount(ops[..|ops| - 1]) + if ops[|ops| - 1].Read? then 1 else 0
  }

  lemma {:induction false} ReadCountConcat(a: seq<Op>, b: seq<Op>)
    ensures ReadCount(a + b) == ReadCount(a) + ReadCount(b)
  {
    if b == [] {
      assert a + b == a;
    } else {
      ReadCountConcat(a, b[..|b| - 1]);
      assert (a + b)[..|a + b| - 1] == a + b[..|b| - 1];
    }
  }

  lemma {:induction false} ReadCountOf(ops: seq<Op>)
    ensures OnlyReads(ops) ==> ReadCount(ops) == |ops|
    ensures (forall i | 0 <= i < |ops| :: ops[i].Write?) ==> ReadCount(ops) == 0
  {
    if ops != [] {
      ReadCountOf(ops[..|ops| - 1]);
    }
  }

  /** A read gets what the writes before it have left. */
  lemma {:induction false} GotIs(start: seq<Byte>, reach: nat, ops: seq<Op>, k: nat)
    requires reach <= |start| && RunFlat(start, reach, ops).ok && k < |ops| && ops[k].Read?
    ensures |RunFlat(start, reach, ops).got| == ReadCount(ops) && OpsFit(ops[..k], |start|)
    ensures ReadCount(ops[..k]) < ReadCount(ops)
    ensures RunFlat(start, reach, ops).got[ReadCount(ops[..k])] ==
      BytesAt(Applied(start, ops[..k]), ops[k].loc, ops[k].count)
    decreases |ops|
  {
    var n := |ops| - 1;
    var rest := ops[..n];
    GotCount(start, reach, ops);
    GotCount(start, reach, rest);
    RunIsApplied(start, reach, rest);
    if k == n {
      RunOkExactly(start, reach, ops);
      assert OpFits(ops[n], reach);
    } else {
      assert rest[..k] == ops[..k] && rest[k] == ops[k];
      GotIs(start, reach, rest, k);
    }
  }

  lemma {:induction false} GotCount(start: seq<Byte>, reach: nat, ops: seq<Op>)
    requires reach <= |start| && RunFlat(start, reach, ops).ok
    ensures |RunFlat(start, reach, ops).got| == ReadCount(ops)
    decreases |ops|
  {
    if ops != [] {
      GotCount(start, reach, ops[..|ops| - 1]);
    }
  }

  /** Up to stage 2 the boot sector is as it was. */
  lemma BootUntouched(c: seq<Byte>, before: seq<Op>, p: Plan, lo: nat, hi: nat)
    requires PlanClear(p, |c|) && Ends(p) && OnlyReads(before) && lo <= hi <= 512
    requires OpsFit(before + ClearA(p) + ClearB(p) + HeaderOps(p), |c|) && 512 <= |c|
    ensures Applied(c, before + ClearA(p) + ClearB(p) + HeaderOps(p))[lo..hi] == c[lo..hi]
  {
    ClearAvoids(p, lo, hi);
    assert AllAvoid(HeaderOps(p), lo, hi);
    AvoidConcat(before + ClearA(p) + ClearB(p), HeaderOps(p), lo, hi);
    Untouched(c, before + ClearA(p) + ClearB(p) + HeaderOps(p), lo, hi);
  }

  /** The run reads the remaining entries as they are at the end, and the saved bytes as they were at the start. */
  lemma PlanReads(start: seq<Byte>, reach: nat, before: seq<Op>, p: Plan)
    requires reach <= |start| && PlanClear(p, |start|) && Ends(p) && OnlyReads(before) && 512 <= |start|
    requires p.listed <= p.lastA - p.arrayA && RunFlat(start, reach, PlanOps(before, p)).ok
    ensures var r, n := RunFlat(start, reach, PlanOps(before, p)), |before|;
      && |r.got| == n + 3 && r.got[n] == BytesAt(r.contents, p.arrayA, p.listed)
      && r.got[n + 1] == BytesAt(start, 218, 6) && r.got[n + 2] == BytesAt(start, 440, 70)
  {
    var ops := PlanOps(before, p);
    RunIsApplied(start, reach, ops);
    ListRead(start, reach, before, p);
    SavedRead(start, reach, before, p);
  }

  lemma CountsUpTo(before: seq<Op>, p: Plan)
    requires OnlyReads(before)
    ensures ReadCount(before + ClearA(p) + ClearB(p)) == |before|
    ensures ReadCount(before + ClearA(p) + ClearB(p) + HeaderOps(p)) == |before| + 1
  {
    ReadCountOf(before);
    ReadCountOf(ClearA(p));
    ReadCountOf(ClearB(p));
    ReadCountConcat(before, ClearA(p));
    ReadCountConcat(before + ClearA(p), ClearB(p));
    ReadCountConcat(before + ClearA(p) + ClearB(p), HeaderOps(p));
    var h := HeaderOps(p);
    ReadCountOf(h[1..]);
    ReadCountConcat([h[0]], h[1..]);
    assert h == [h[0]] + h[1..];
    ReadCountOf([h[0]]);
  }

  lemma ListRead(start: seq<Byte>, reach: nat, before: seq<Op>, p: Plan)
    requires reach <= |start| && PlanClear(p, |start|) && OnlyReads(before)
    requires p.listed <= p.lastA - p.arrayA && RunFlat(start, reach, PlanOps(before, p)).ok
    ensures OpsFit(PlanOps(before, p), |start|)
    ensures |before| < |RunFlat(start, reach, PlanOps(before, p)).got|
    ensures RunFlat(start, reach, PlanOps(before, p)).got[|before|] ==
      BytesAt(Applied(start, PlanOps(before, p)), p.arrayA, p.listed)
  {
    var ops, first, rest := PlanOps(before, p), before + ClearA(p) + ClearB(p), HeaderOps(p) + StageOps(p.stage);
    assert ops == first + rest && ops[|first|] == HeaderOps(p)[0] && ops[..|first|] == first;
    RunIsApplied(start, reach, ops);
    CountsUpTo(before, p);
    GotIs(start, reach, ops, |first|);
    RestAvoids(p, |start|, p.arrayA, p.arrayA + p.listed);
    PartsFit(first, rest, |start|);
    Remains(start, first, rest, p.arrayA, p.arrayA + p.listed);
  }

  lemma SavedRead(start: seq<Byte>, reach: nat, before: seq<Op>, p: Plan)
    requires reach <= |start| && PlanClear(p, |start|) && Ends(p) && OnlyReads(before) && 512 <= |start|
    requires RunFlat(start, reach, PlanOps(before, p)).ok
    ensures var got := RunFlat(start, reach, PlanOps(before, p)).got;
      && |got| == |before| + 3 && got[|before| + 1] == BytesAt(start, 218, 6)
      && got[|before| + 2] == BytesAt(start, 440, 70)
  {
    var ops, first, t := PlanOps(before, p), before + ClearA(p) + ClearB(p) + HeaderOps(p), StageOps(p.stage);
    RunIsApplied(start, reach, ops);
    CountsUpTo(before, p);
    PartsFit(first, t, |start|);
    BootUntouched(start, before, p, 218, 224);
    BootUntouched(start, before, p, 440, 510);
    StageReadCount(p.stage);
    SavedReadAt(start, reach, first, t, |before| + 1);
  }

  lemma StageReadCount(t: Stage)
    ensures ReadCount(StageOps(t)) == 2
  {
    var ops := StageOps(t);
    assert ops == ops[..2] + ops[2..11] + [Flush];
    ReadCountConcat(ops[..2] + ops[2..11], [Flush]);
    ReadCountConcat(ops[..2], ops[2..11]);
    ReadCountOf(ops[..2]);
    ReadCountOf(ops[2..11]);
    assert [Flush][..0] == [];
  }

  lemma SavedReadAt(start: seq<Byte>, reach: nat, first: seq<Op>, t: seq<Op>, n: nat)
    requires reach <= |start| && RunFlat(start, reach, first + t).ok && ReadCount(first) == n && |t| >= 2
    requires t[0] == Read(218, 6) && t[1] == Read(440, 70) && ReadCount(t) == 2 && OpsFit(first, |start|) &&
      512 <= |start|
    requires Applied(start, first)[218..224] == start[218..224] && Applied(start, first)[440..510] == start[440..510]
    ensures var got := RunFlat(start, reach, first + t).got;
      |got| == n + 2 && got[n] == BytesAt(start, 218, 6) && got[n + 1] == BytesAt(start, 440, 70)
  {
    var ops, k := first + t, |first|;
    assert ops[k] == t[0] && ops[k + 1] == t[1] && ops[..k] == first && ops[..k + 1] == first + [t[0]];
    ReadCountConcat(first, t);
    ReadCountConcat(first, [t[0]]);
    ReadCountOf([t[0]]);
    GotIs(start, reach, ops, k);
    GotIs(start, reach, ops, k + 1);
    assert (first + [t[0]])[..k] == first;
  }

  // ------------------------------------------------------------------ the installer's own numbers

  /** Where an array or a header begins, and where an array ends. */
  function At(s: Setup, block: nat): nat
  {
    Multiple(s.lb, block)
  }

  /** Boot sector, headers and arrays lie apart on a device of `size` bytes, and the entries that remain of the second
      array, which may have a size of their own, end before its half. */
  ghost predicate LaidOut(s: Setup, size: nat)
  {
    && WellFormed(s) && s.entryB > 0 && (s.lbaB + 32) * s.lb < TWO_TO_64
    && Separate(s.lbaB, s.lb, Left(s), s.entryB, HalfB(Size()))
    && AreasApart(s, size)
  }

  ghost predicate AreasApart(s: Setup, size: nat)
  {
    var a, b, endA, endB, h := At(s, s.lbaA), At(s, s.lbaB), At(s, s.lbaA + 32), At(s, s.lbaB + 32), At(s, s.alternate);
    && endA <= size && endB <= size && 512 <= a && 512 <= b && 512 <= h
    && Disjoint(a, endA, b, endB) && Disjoint(s.lb, s.lb + HEADER_SIZE, h, h + HEADER_SIZE)
    && Disjoint(a, endA, s.lb, s.lb + HEADER_SIZE) && Disjoint(a, endA, h, h + HEADER_SIZE)
    && Disjoint(b, endB, s.lb, s.lb + HEADER_SIZE) && Disjoint(b, endB, h, h + HEADER_SIZE)
  }

  function StageOf(s: Setup): Stage
    requires BlockSize(s.lb) && |s.image| == IMAGE
  {
    Stage(s.image[..512], Location(s.lbaA, s.lb, 10752), s.image[512..11264], Location(s.lbaB, s.lb, 10240),
          s.image[11264..], 10240, s.timestamp, s.table)
  }

  function PlanOf(s: Setup, left: nat, t: Stage): Plan
    requires s.maxUsed >= -1
  {
    var a, b, u := At(s, s.lbaA), At(s, s.lbaB), s.maxUsed + 1;
    Plan(a, At(s, s.lbaA + 32), s.entryA, b, At(s, s.lbaB + 32), s.entryB, u, left,
         a + Multiple(s.entryA, u), a + Multiple(s.entryA, left), b + Multiple(s.entryB, u),
         b + Multiple(s.entryB, left),
         Multiple(s.entryA, left), s.lb, s.headerA, At(s, s.alternate), s.headerB, t)
  }

  lemma Halves()
    ensures HalfA(Size()) == 10752 && HalfB(Size()) == 10240
  {
  }

  lemma Products(s: Setup, left: nat)
    ensures At(s, s.lbaA) == s.lbaA * s.lb && At(s, s.lbaB) == s.lbaB * s.lb && At(s, s.alternate) == s.lb * s.alternate
    ensures At(s, s.lbaA + 32) == (s.lbaA + 32) * s.lb && At(s, s.lbaB + 32) == (s.lbaB + 32) * s.lb
    ensures Multiple(s.entryA, left) == left * s.entryA && Multiple(s.entryB, left) == left * s.entryB
  {
    MultipleIsProduct(s.lb, s.lbaA);
    MultipleIsProduct(s.lb, s.lbaB);
    MultipleIsProduct(s.lb, s.alternate);
    MultipleIsProduct(s.lb, s.lbaA + 32);
    MultipleIsProduct(s.lb, s.lbaB + 32);
    MultipleIsProduct(s.entryA, left);
    MultipleIsProduct(s.entryB, left);
  }

  lemma InstallIsPlan(before: seq<Op>, s: Setup)
    requires WellFormed(s) && Accepted(s.lbaA, s.lb, Size(), s.entryA, s.maxUsed)
    ensures Left(s) > s.maxUsed
    ensures GptInstall.Install(before, s) == PlanOps(before, PlanOf(s, Left(s), StageOf(s)))
  {
    Halves();
    Products(s, Left(s));
    assert StageWrites(s) == StageOps(StageOf(s));
    assert HeaderWrites(s) == HeaderOps(PlanOf(s, Left(s), StageOf(s)));
  }

  /** The halves lie behind the entries that remain and inside their arrays. */
  ghost predicate HalvesInside(s: Setup, n: nat, t: Stage)
  {
    && At(s, s.lbaA) + Multiple(s.entryA, n) <= t.locA && t.locA + |t.partA| <= At(s, s.lbaA + 32)
    && At(s, s.lbaB) + Multiple(s.entryB, n) <= t.locB && t.locB + t.sizeB <= At(s, s.lbaB + 32)
  }

  lemma StageIsClear(s: Setup, size: nat)
    requires LaidOut(s, size)
    ensures StageClear(StageOf(s)) && Left(s) >= 0 && HalvesInside(s, Left(s), StageOf(s))
  {
    Halves();
    EntriesBeforeHalf(s.lbaA, s.lb, 10752, s.entryA);
    Products(s, Left(s));
  }

  lemma PlanIsClear(s: Setup, size: nat, n: nat, t: Stage)
    requires LaidOut(s, size) && n > s.maxUsed && n == Left(s) && t == StageOf(s)
    ensures PlanClear(PlanOf(s, n, t), size) && Ends(PlanOf(s, n, t))
  {
    StageIsClear(s, size);
    AreasMakePlan(s, size, n, t);
  }

  lemma AreasMakePlan(s: Setup, size: nat, n: nat, t: Stage)
    requires AreasApart(s, size) && n > s.maxUsed >= -1 && StageClear(t) && HalvesInside(s, n, t) && BlockSize(s.lb)
    requires s.entryA > 0 && s.entryB > 0 && |s.headerA| == |s.headerB| == HEADER_SIZE
    ensures PlanClear(PlanOf(s, n, t), size) && Ends(PlanOf(s, n, t))
  {
    MultipleMonotone(s.entryA, s.maxUsed + 1, n);
    MultipleMonotone(s.entryB, s.maxUsed + 1, n);
  }

  // ------------------------------------------------------------------ what is left on the disk

  /** Entry `e` of an array at `base` is as it was if it is in use, and zero otherwise. */
  ghost predicate EntryRight(start: seq<Byte>, c: seq<Byte>, base: nat, entry: nat, e: nat, maxUsed: int)
  {
    var lo := base + Multiple(entry, e);
    BytesAt(c, lo, entry) == if e <= maxUsed then BytesAt(start, lo, entry) else ZeroBytes(entry)
  }

  /** What a finished installation leaves on a disk that held `start`: loading finds stage 2; the boot sector is the
      image's but for the numbers, the timestamp and the partition table, which are the saved ones; the entries in use
      are kept and the others that remain are zero, in both arrays; and both headers are in place. */
  ghost predicate Installed(start: seq<Byte>, c: seq<Byte>, s: Setup, left: nat)
    requires |s.image| == IMAGE
  {
    && |c| == |start| && s.image[512..] <= Loaded(c)
    && BytesAt(c, 0, 218) == s.image[..218] && BytesAt(c, 224, 196) == s.image[224..420]
    && BytesAt(c, 510, 2) == s.image[510..512]
    && BytesAt(c, 218, 6) == s.timestamp && BytesAt(c, 440, 70) == s.table
    && (forall e: nat | e < left :: EntryRight(start, c, At(s, s.lbaA), s.entryA, e, s.maxUsed))
    && (forall e: nat | e < left :: EntryRight(start, c, At(s, s.lbaB), s.entryB, e, s.maxUsed))
    && BytesAt(c, s.lb, HEADER_SIZE) == s.headerA && BytesAt(c, At(s, s.alternate), HEADER_SIZE) == s.headerB
  }

  lemma EntryEnds(entry: nat, e: nat, n: nat)
    ensures e < n ==> Multiple(entry, e) + entry <= Multiple(entry, n)
  {
    if e < n { MultipleMonotone(entry, e, n); }
  }

  ghost predicate Sound(c: seq<Byte>, before: seq<Op>, p: Plan)
  {
    PlanClear(p, |c|) && Ends(p) && OnlyReads(before) && OpsFit(PlanOps(before, p), |c|)
  }

  lemma KeptBytes(c: seq<Byte>, before: seq<Op>, p: Plan, r: seq<Byte>, lo: nat, n: nat)
    requires Sound(c, before, p) && r == Applied(c, PlanOps(before, p))
    requires (p.arrayA <= lo && lo + n <= p.usedA) || (p.arrayB <= lo && lo + n <= p.usedB)
    ensures BytesAt(r, lo, n) == BytesAt(c, lo, n)
  {
    UsedKept(c, before, p, lo, lo + n);
  }

  lemma ClearedA(c: seq<Byte>, before: seq<Op>, p: Plan, r: seq<Byte>, e: nat, lo: nat)
    requires Sound(c, before, p) && p.unused <= e < p.left && r == Applied(c, PlanOps(before, p))
    requires lo == p.arrayA + Multiple(p.entryA, e)
    ensures BytesAt(r, lo, p.entryA) == ZeroBytes(p.entryA)
  {
    EntryEnds(p.entryA, e, p.left);
    UnusedClearedA(c, before, p, e, lo);
  }

  lemma EntryRightA(c: seq<Byte>, before: seq<Op>, p: Plan, r: seq<Byte>, e: nat, lo: nat)
    requires Sound(c, before, p) && e < p.left && r == Applied(c, PlanOps(before, p))
    requires lo == p.arrayA + Multiple(p.entryA, e)
    ensures BytesAt(r, lo, p.entryA) == if e < p.unused then BytesAt(c, lo, p.entryA) else ZeroBytes(p.entryA)
  {
    if e < p.unused {
      EntryEnds(p.entryA, e, p.unused);
      KeptBytes(c, before, p, r, lo, p.entryA);
    } else {
      ClearedA(c, before, p, r, e, lo);
    }
  }

  lemma ClearedB(c: seq<Byte>, before: seq<Op>, p: Plan, r: seq<Byte>, e: nat, lo: nat)
    requires Sound(c, before, p) && p.unused <= e < p.left && r == Applied(c, PlanOps(before, p))
    requires lo == p.arrayB + Multiple(p.entryB, e)
    ensures BytesAt(r, lo, p.entryB) == ZeroBytes(p.entryB)
  {
    EntryEnds(p.entryB, e, p.left);
    UnusedClearedB(c, before, p, e, lo);
  }

  lemma EntryRightB(c: seq<Byte>, before: seq<Op>, p: Plan, r: seq<Byte>, e: nat, lo: nat)
    requires Sound(c, before, p) && e < p.left && r == Applied(c, PlanOps(before, p))
    requires lo == p.arrayB + Multiple(p.entryB, e)
    ensures BytesAt(r, lo, p.entryB) == if e < p.unused then BytesAt(c, lo, p.entryB) else ZeroBytes(p.entryB)
  {
    if e < p.unused {
      EntryEnds(p.entryB, e, p.unused);
      KeptBytes(c, before, p, r, lo, p.entryB);
    } else {
      ClearedB(c, before, p, r, e, lo);
    }
  }

  lemma OkIsAccepted(start: seq<Byte>, reach: nat, before: seq<Op>, s: Setup)
    requires WellFormed(s) && reach <= |start| && RunFlat(start, reach, GptInstall.Install(before, s)).ok
    ensures Accepted(s.lbaA, s.lb, Size(), s.entryA, s.maxUsed)
  {
    var ops := GptInstall.Install(before, s);
    RunOkExactly(start, reach, ops);
    assert OpFits(ops[|ops| - 1], reach);
  }

  /** The plan is that of the installation with this image and these saved bytes. */
  ghost predicate PlanFor(p: Plan, s: Setup)
  {
    && |s.image| == IMAGE && s.maxUsed >= -1 && p == PlanOf(s, p.left, p.stage)
    && p.stage.boot == s.image[..512] && p.stage.partA + p.stage.partB == s.image[512..]
    && p.stage.timestamp == s.timestamp && p.stage.table == s.table
  }

  lemma PlanInstalls(start: seq<Byte>, before: seq<Op>, s: Setup, p: Plan)
    requires Sound(start, before, p) && PlanFor(p, s)
    ensures Installed(start, Applied(start, PlanOps(before, p)), s, p.left)
  {
    var c := Applied(start, PlanOps(before, p));
    PlanLoads(start, before, p);
    PlanHeads(start, before, p);
    forall e: nat | e < p.left ensures EntryRight(start, c, p.arrayA, p.entryA, e, s.maxUsed) {
      EntryRightA(start, before, p, c, e, p.arrayA + Multiple(p.entryA, e));
    }
    forall e: nat | e < p.left ensures EntryRight(start, c, p.arrayB, p.entryB, e, s.maxUsed) {
      EntryRightB(start, before, p, c, e, p.arrayB + Multiple(p.entryB, e));
    }
    InstalledIs(start, c, s, p);
  }

  lemma InstalledIs(start: seq<Byte>, c: seq<Byte>, s: Setup, p: Plan)
    requires PlanFor(p, s) && |c| == |start| && InPlace(c, p.stage) && p.stage.partA + p.stage.partB <= Loaded(c)
    requires BytesAt(c, p.headA, HEADER_SIZE) == p.headerA && BytesAt(c, p.headB, HEADER_SIZE) == p.headerB
    requires forall e: nat | e < p.left :: EntryRight(start, c, p.arrayA, p.entryA, e, s.maxUsed)
    requires forall e: nat | e < p.left :: EntryRight(start, c, p.arrayB, p.entryB, e, s.maxUsed)
    ensures Installed(start, c, s, p.left)
  {
    BootIs(s, p.stage.boot);
  }

  lemma BootIs(s: Setup, boot: seq<Byte>)
    requires |s.image| == IMAGE && boot == s.image[..512]
    ensures s.image[..218] == boot[..218] && s.image[224..420] == boot[224..420] && s.image[510..512] == boot[510..512]
  {
  }

  /** A run that installs: the disk is left as `Installed` says, the timestamp and the partition table that were read
      are those of the original disk, and the entries that were read for the checksum in the headers are those that are
      there at the end. */
  ghost predicate Leaves(start: seq<Byte>, r: Flat, before: nat, s: Setup, left: nat)
  {
    && |s.image| == IMAGE && Installed(start, r.contents, s, left) && |r.got| == before + 3
    && r.got[before] == BytesAt(r.contents, At(s, s.lbaA), Multiple(s.entryA, left))
    && r.got[before + 1] == BytesAt(start, 218, 6) && r.got[before + 2] == BytesAt(start, 440, 70)
    && (s.timestamp == r.got[before + 1] ==> BytesAt(r.contents, 218, 6) == BytesAt(start, 218, 6))
    && (s.table == r.got[before + 2] ==> BytesAt(r.contents, 440, 70) == BytesAt(start, 440, 70))
  }

  lemma PlanLeaves(start: seq<Byte>, reach: nat, before: seq<Op>, s: Setup, p: Plan)
    requires PlanClear(p, reach) && Ends(p) && OnlyReads(before) && reach <= |start| && PlanFor(p, s)
    requires RunFlat(start, reach, PlanOps(before, p)).ok
    ensures Leaves(start, RunFlat(start, reach, PlanOps(before, p)), |before|, s, p.left)
  {
    RunIsApplied(start, reach, PlanOps(before, p));
    PlanInstalls(start, before, s, p);
    PlanReads(start, reach, before, p);
  }

  lemma StageIsFor(s: Setup, t: Stage)
    requires |s.image| == IMAGE && BlockSize(s.lb) && t == StageOf(s)
    ensures t.boot == s.image[..512] && t.partA + t.partB == s.image[512..]
  {
  }

  /** Every installation that succeeds leaves the disk so. */
  lemma InstallLeaves(start: seq<Byte>, reach: nat, before: seq<Op>, s: Setup)
    requires LaidOut(s, reach) && OnlyReads(before) && reach <= |start|
    requires RunFlat(start, reach, GptInstall.Install(before, s)).ok
    ensures Left(s) > s.maxUsed
    ensures Leaves(start, RunFlat(start, reach, GptInstall.Install(before, s)), |before|, s, Left(s))
  {
    OkIsAccepted(start, reach, before, s);
    InstallIsPlan(before, s);
    PlanReady(s, reach, Left(s), StageOf(s));
    PlanLeavesAs(start, reach, before, s, PlanOf(s, Left(s), StageOf(s)), GptInstall.Install(before, s));
  }

  lemma PlanReady(s: Setup, size: nat, n: nat, t: Stage)
    requires LaidOut(s, size) && n > s.maxUsed && n == Left(s) && t == StageOf(s)
    ensures PlanClear(PlanOf(s, n, t), size) && Ends(PlanOf(s, n, t)) && PlanFor(PlanOf(s, n, t), s)
  {
    PlanIsClear(s, size, n, t);
    PlanIsFor(s, n, t);
  }

  lemma PlanIsFor(s: Setup, left: nat, t: Stage)
    requires |s.image| == IMAGE && BlockSize(s.lb) && s.maxUsed >= -1 && t == StageOf(s)
    ensures PlanFor(PlanOf(s, left, t), s)
  {
    StageIsFor(s, t);
  }

  lemma PlanLeavesAs(start: seq<Byte>, reach: nat, before: seq<Op>, s: Setup, p: Plan, ops: seq<Op>)
    requires PlanClear(p, reach) && Ends(p) && OnlyReads(before) && reach <= |start| && PlanFor(p, s)
    requires ops == PlanOps(before, p) && RunFlat(start, reach, ops).ok
    ensures Leaves(start, RunFlat(start, reach, ops), |before|, s, p.left)
  {
    PlanLeaves(start, reach, before, s, p);
  }
}
