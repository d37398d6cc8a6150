/** The operations of an installation that embeds stage 2 into the partition arrays of a GPT disk, as a run of the
    device layer. */
module GptInstall {
  import opened Bytes
  import opened GptEmbedding
  import opened LimineDevice
  import opened LimineInstall

  /** What the disk and the image settle: where the arrays and the second header are, the sizes of their entries, the
      last entry used, and the bytes that were read or computed before they are written. */
  datatype Setup = Setup(
    lb: nat, lbaA: nat, entryA: nat, lbaB: nat, entryB: nat, alternate: nat, maxUsed: int,
    image: seq<Byte>, headerA: seq<Byte>, headerB: seq<Byte>, timestamp: seq<Byte>, table: seq<Byte>)

  const HEADER_SIZE: nat := 96     // the 92 bytes of a GPT header, padded to a multiple of 8

  ghost predicate WellFormed(s: Setup)
  {
    && BlockSize(s.lb) && (s.lbaA + 32) * s.lb < TWO_TO_64 && s.entryA > 0 && s.maxUsed >= -1
    && |s.image| == IMAGE && |s.headerA| == |s.headerB| == HEADER_SIZE && |s.timestamp| == 6 && |s.table| == 70
  }

  function Size(): nat
  {
    IMAGE - 512
  }

  function Left(s: Setup): int
    requires BlockSize(s.lb) && s.entryA > 0
  {
    EntryCount(s.lbaA, s.lb, HalfA(Size()), s.entryA)
  }

  function ZeroBytes(n: nat): (z: seq<Byte>)
    ensures |z| == n && forall i | 0 <= i < n :: z[i] == 0
  {
    seq(n, _ => 0)
  }

  /** The loop that zeroes the entries from the first unused one on. */
  function Clearing(base: nat, entry: nat, from: nat, count: int): (ops: seq<Op>)
    ensures |ops| == if from < count then count - from else 0
    ensures forall i | 0 <= i < |ops| :: ops[i].Write?
    decreases count - from
  {
    if from >= count then []
      else [Write(base + from * entry, ZeroBytes(entry))] + Clearing(base, entry, from + 1, count)
  }

  function HeaderWrites(s: Setup): seq<Op>
    requires BlockSize(s.lb) && s.entryA > 0
  {
    [Read(s.lbaA * s.lb, if Left(s) > 0 then Left(s) * s.entryA else 0), Write(s.lb, s.headerA),
      Write(s.lb * s.alternate, s.headerB)]
  }

  function StageWrites(s: Setup): seq<Op>
    requires BlockSize(s.lb) && |s.image| == IMAGE
  {
    var a, b := HalfA(Size()), HalfB(Size());
    var locA, locB := Location(s.lbaA, s.lb, a), Location(s.lbaB, s.lb, b);
    assert a == 10752;
    [Read(218, 6), Read(440, 70), Write(0, s.image[..512]), Write(locA, s.image[512..512 + a]),
      Write(locB, s.image[512 + a..]),
     Write(0x1a4, LittleEndian(a, 2)), Write(0x1a6, LittleEndian(b, 2)), Write(0x1a8, LittleEndian(locA, 8)),
     Write(0x1b0, LittleEndian(locB, 8)), Write(218, s.timestamp), Write(440, s.table), Flush]
  }

  /** The whole run, after the reads that look for the table and its last used entry. */
  function Install(before: seq<Op>, s: Setup): seq<Op>
    requires BlockSize(s.lb) && s.entryA > 0 && |s.image| == IMAGE && s.maxUsed >= -1
  {
    if Accepted(s.lbaA, s.lb, Size(), s.entryA, s.maxUsed)
    then before + Clearing(s.lbaA * s.lb, s.entryA, s.maxUsed + 1, Left(s)) +
      Clearing(s.lbaB * s.lb, s.entryB, s.maxUsed + 1, Left(s))
      + HeaderWrites(s) + StageWrites(s)
    else before + [Abort]
  }

  lemma {:induction false} AllWrites(ops: seq<Op>)
    requires forall i | 0 <= i < |ops| :: ops[i].Write?
    ensures WriteCount(ops) == |ops|
  {
    if ops != [] { AllWrites(ops[..|ops| - 1]); }
  }

  lemma {:induction false} NoWrites(ops: seq<Op>)
    requires forall i | 0 <= i < |ops| :: ops[i].Read?
    ensures WriteCount(ops) == 0
  {
    if ops != [] { NoWrites(ops[..|ops| - 1]); }
  }

  lemma {:induction false} CountFrom(op: Op, ops: seq<Op>)
    ensures WriteCount([op] + ops) == (if op.Write? then 1 else 0) + WriteCount(ops)
  {
    WriteCountConcat([op], ops);
    assert [op][..0] == [];
  }

  lemma HeaderCount(s: Setup)
    requires BlockSize(s.lb) && s.entryA > 0
    ensures WriteCount(HeaderWrites(s)) == 2
  {
    var ops := HeaderWrites(s);
    assert ops == [ops[0]] + [ops[1], ops[2]];
    CountFrom(ops[0], [ops[1], ops[2]]);
    AllWrites([ops[1], ops[2]]);
  }

  lemma StageCount(s: Setup)
    requires BlockSize(s.lb) && |s.image| == IMAGE
    ensures WriteCount(StageWrites(s)) == 9
  {
    var ops := StageWrites(s);
    assert ops == ops[..2] + ops[2..11] + [Flush];
    WriteCountConcat(ops[..2] + ops[2..11], [Flush]);
    WriteCountConcat(ops[..2], ops[2..11]);
    NoWrites(ops[..2]);
    AllWrites(ops[2..11]);
    CountFrom(Flush, []);
    assert [Flush] + [] == [Flush];
  }

  lemma CountParts(before: seq<Op>, a: seq<Op>, b: seq<Op>, headers: seq<Op>, stages: seq<Op>)
    ensures WriteCount(before + a + b + headers + stages)
      == WriteCount(before) + WriteCount(a) + WriteCount(b) + WriteCount(headers) + WriteCount(stages)
  {
    WriteCountConcat(before + a + b + headers, stages);
    WriteCountConcat(before + a + b, headers);
    WriteCountConcat(before + a, b);
    WriteCountConcat(before, a);
  }

  /** An installation writes every unused entry of both arrays that remains, and eleven times more. */
  lemma InstallCount(before: seq<Op>, s: Setup)
    requires WellFormed(s) && (forall i | 0 <= i < |before| :: before[i].Read?)
    requires Accepted(s.lbaA, s.lb, Size(), s.entryA, s.maxUsed)
    ensures WriteCount(Install(before, s)) == 2 * (Left(s) - s.maxUsed - 1) + 11
  {
    var a := Clearing(s.lbaA * s.lb, s.entryA, s.maxUsed + 1, Left(s));
    var b := Clearing(s.lbaB * s.lb, s.entryB, s.maxUsed + 1, Left(s));
    assert Install(before, s) == before + a + b + HeaderWrites(s) + StageWrites(s);
    CountParts(before, a, b, HeaderWrites(s), StageWrites(s));
    NoWrites(before);
    AllWrites(a);
    AllWrites(b);
    HeaderCount(s);
    StageCount(s);
  }

  ghost predicate TransfersFit(ops: seq<Op>, reach: nat)
  {
    forall i | 0 <= i < |ops| :: ops[i].Abort? || OpFits(ops[i], reach)
  }

  /** The shipped image and 128-byte entries: the installation succeeds if and only if every transfer lies on the
      device and, on 512-byte blocks, the entries from 44 on are unused, or, on 4096-byte blocks, the last used entry is
      one of 805 to 927. A table of 128 entries has none of these. */
  lemma InstallSucceedsExactly(start: seq<Byte>, reach: nat, before: seq<Op>, s: Setup)
    requires WellFormed(s) && s.entryA == 128 && (s.lbaA + 32) * 4096 < TWO_TO_64 && reach <= |start|
    requires forall i | 0 <= i < |before| :: before[i].Read?
    ensures RunFlat(start, reach, Install(before, s)).ok
      <==> TransfersFit(Install(before, s), reach) && if s.lb == 512 then s.maxUsed < 44 else 805 <= s.maxUsed < 928
  {
    var ops := Install(before, s);
    RunOkExactly(start, reach, ops);
    EntriesLeft(s.lbaA);
    if Accepted(s.lbaA, s.lb, Size(), s.entryA, s.maxUsed) {
      InstallCount(before, s);
      NoAbort(before, s);
    } else {
      assert ops[|ops| - 1] == Abort;
    }
  }

  lemma NoAbort(before: seq<Op>, s: Setup)
    requires WellFormed(s) && Accepted(s.lbaA, s.lb, Size(), s.entryA, s.maxUsed)
    requires forall i | 0 <= i < |before| :: before[i].Read?
    ensures forall i | 0 <= i < |Install(before, s)| :: !Install(before, s)[i].Abort?
  {
  }
}
