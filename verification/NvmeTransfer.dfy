/** Splitting a block request into NVMe commands. */
module NvmeTransfer {
  import opened Prelude

  /** `uint16_t lbas = 1 << shift`. */
  function LbasPerCommand(shift: nat): nat
  {
    Pow2(shift) % 0x1_0000
  }

  /** The per-command limit is stored in 16 bits: it is right below 2^16 blocks and 0 from there on. */
  lemma LimitTruncates(shift: nat)
    ensures shift < 16 ==> LbasPerCommand(shift) == Pow2(shift)
    ensures LbasPerCommand(shift) == 0 <==> shift >= 16
  {
    Pow2Sixteen();
    if shift < 16 {
      Pow2Monotone(shift, 15);
    } else {
      Pow2Sum(shift - 16, 16);
      var high := Pow2(shift - 16);
      assert Pow2(shift) == high * 0x1_0000;
      assert (high * 0x1_0000) % 0x1_0000 == 0;
    }
  }

  lemma Pow2Sixteen()
    ensures Pow2(15) == 0x8000 && Pow2(16) == 0x1_0000
  {
    assert Pow2(4) == 16;
    Pow2Sum(4, 4);
    Pow2Sum(8, 8);
    assert Pow2(16) == 2 * Pow2(15);
  }

  /** A read or write command: first block, block count minus one, and buffer address. */
  datatype Rw = Rw(slba: nat, length: nat, prp1: nat)

  /** The commands cover `count` blocks from `slba` on, in order and without gap or overlap, none longer than
      `limit` blocks, each from its own part of the buffer. */
  ghost predicate Tiles(commands: seq<Rw>, slba: nat, count: nat, buffer: nat, bytesPerBlock: nat, limit: nat)
  {
    if commands == [] then count == 0
    else
      var last := commands[|commands| - 1];
      && last.length < limit && last.length + 1 <= count
      && last.slba + last.length + 1 == slba + count
      && last.prp1 == buffer + Multiple(bytesPerBlock, count - last.length - 1)
      && Tiles(commands[..|commands| - 1], slba, count - last.length - 1, buffer, bytesPerBlock, limit)
  }

  /** The blocks that a list of commands transfers. */
  function BlocksOf(commands: seq<Rw>): nat
  {
    if commands == [] then 0 else BlocksOf(commands[..|commands| - 1]) + commands[|commands| - 1].length + 1
  }

  /** The commands before number `failing`. */
  function Succeeded(commands: seq<Rw>, failing: nat): seq<Rw>
  {
    if |commands| <= failing then commands else commands[..failing]
  }

  /** Command `i` of a request: all commands but the last transfer `limit` blocks. */
  function Nth(blockNumber: nat, blockCount: nat, buffer: nat, perBlock: nat, limit: nat, i: nat): Rw
    requires limit > 0 && Multiple(limit, i) < blockCount
  {
    var before := Multiple(limit, i);
    Rw(blockNumber + before, Min(limit, blockCount - before) - 1, buffer + Multiple(perBlock, before))
  }

  predicate IsNth(c: Rw, blockNumber: nat, blockCount: nat, buffer: nat, perBlock: nat, limit: nat, i: nat)
  {
    limit > 0 && Multiple(limit, i) < blockCount && c == Nth(blockNumber, blockCount, buffer, perBlock, limit, i)
  }

  /** The commands are the first ones of the request. */
  ghost predicate FirstOnes(commands: seq<Rw>, blockNumber: nat, blockCount: nat, buffer: nat, perBlock: nat,
                            limit: nat)
  {
    forall i | 0 <= i < |commands| :: IsNth(commands[i], blockNumber, blockCount, buffer, perBlock, limit, i)
  }

  /** The blocks that the first `n` commands of a request transfer. */
  function Transferred(blockCount: nat, limit: nat, n: nat): nat
  {
    Min(Multiple(limit, n), blockCount)
  }

  /** The first commands of a request tile its first blocks. */
  lemma {:induction false} FirstOnesTile(commands: seq<Rw>, blockNumber: nat, blockCount: nat, buffer: nat,
                                         perBlock: nat, limit: nat)
    requires FirstOnes(commands, blockNumber, blockCount, buffer, perBlock, limit)
    ensures BlocksOf(commands) == Transferred(blockCount, limit, |commands|)
    ensures Tiles(commands, blockNumber, BlocksOf(commands), buffer, perBlock, limit)
  {
    if commands != [] {
      var n := |commands| - 1;
      assert IsNth(commands[n], blockNumber, blockCount, buffer, perBlock, limit, n);
      FirstOnesTile(commands[..n], blockNumber, blockCount, buffer, perBlock, limit);
    }
  }

  method SizeOf(lbas: nat, perBlock: nat) returns (size: nat)
    ensures size == Multiple(perBlock, lbas)
  {
    MultipleIsProduct(perBlock, lbas);
    size := lbas * perBlock;
  }

  /** What the loop has done: `commands` are the first ones of the request, and the `done` blocks of those before number
      `failing` are counted in `bytes`. */
  ghost predicate Chunked(commands: seq<Rw>, bytes: nat, done: nat, blockNumber: nat, blockCount: nat, buffer: nat,
                          perBlock: nat, limit: nat, failing: nat)
  {
    && done == BlocksOf(Succeeded(commands, failing)) <= blockCount && bytes == Multiple(perBlock, done)
    && Tiles(Succeeded(commands, failing), blockNumber, done, buffer, perBlock, limit)
    && FirstOnes(commands, blockNumber, blockCount, buffer, perBlock, limit)
  }

  /** The chunking loop. `failing` is the number of the command that the device fails, if any is; the loop
      stops behind it and does not count it in the bytes it returns. */
  method RawBlock(blockNumber: nat, blockCount: nat, buffer: nat, transferShift: nat, lbaShift: nat, failing: nat)
    returns (commands: seq<Rw>, bytes: nat)
    requires lbaShift <= transferShift < lbaShift + 16
    ensures var done := BlocksOf(Succeeded(commands, failing));
      && Chunked(commands, bytes, done, blockNumber, blockCount, buffer, Pow2(lbaShift),
                 Pow2(transferShift - lbaShift), failing)
      && (|commands| <= failing ==> done == blockCount)
      && (|commands| > failing ==> |commands| == failing + 1 && commands[failing].slba == blockNumber + done
                                   && commands[failing].slba + commands[failing].length < blockNumber + blockCount)
  {
    LimitTruncates(transferShift - lbaShift);
    commands, bytes := Chunks(blockNumber, blockCount, buffer, Pow2(lbaShift), LbasPerCommand(transferShift - lbaShift),
                              failing);
  }

  /** The result of the loop in terms of its commands. */
  lemma ChunkedUpTo(commands: seq<Rw>, bytes: nat, done: nat, blockNumber: nat, blockCount: nat, buffer: nat,
                    perBlock: nat, limit: nat, failing: nat)
    requires FirstOnes(commands, blockNumber, blockCount, buffer, perBlock, limit) && |commands| <= failing + 1
    requires done == Transferred(blockCount, limit, Min(|commands|, failing)) && bytes == Multiple(perBlock, done)
    ensures Chunked(commands, bytes, done, blockNumber, blockCount, buffer, perBlock, limit, failing)
  {
    var s := Succeeded(commands, failing);
    assert |s| == Min(|commands|, failing) && forall i | 0 <= i < |s| :: s[i] == commands[i];
    FirstOnesTile(s, blockNumber, blockCount, buffer, perBlock, limit);
  }

  lemma FirstOnesNext(commands: seq<Rw>, c: Rw, blockNumber: nat, blockCount: nat, buffer: nat, perBlock: nat,
                      limit: nat,
                      done: nat, lbas: nat)
    requires FirstOnes(commands, blockNumber, blockCount, buffer, perBlock, limit) && limit > 0
    requires done == Transferred(blockCount, limit, |commands|) < blockCount && lbas == Min(limit, blockCount - done)
    requires c == Rw(blockNumber + done, lbas - 1, buffer + Multiple(perBlock, done))
    ensures FirstOnes(commands + [c], blockNumber, blockCount, buffer, perBlock, limit)
    ensures done + lbas == Transferred(blockCount, limit, |commands| + 1)
  {
    assert IsNth(c, blockNumber, blockCount, buffer, perBlock, limit, |commands|);
  }

  method Chunks(blockNumber: nat, blockCount: nat, buffer: nat, perBlock: nat, limit: nat, failing: nat)
    returns (commands: seq<Rw>, bytes: nat)
    requires limit > 0
    ensures var done := BlocksOf(Succeeded(commands, failing));
      && Chunked(commands, bytes, done, blockNumber, blockCount, buffer, perBlock, limit, failing)
      && (|commands| <= failing ==> done == blockCount)
      && (|commands| > failing ==> |commands| == failing + 1 && commands[failing].slba == blockNumber + done
                                   && commands[failing].slba + commands[failing].length < blockNumber + blockCount)
  {
    var lbas := limit;
    var totalLbas, slba, tempBuffer := blockCount, blockNumber, buffer;
    commands, bytes := [], 0;
    ghost var done := 0;
    while totalLbas > 0
      invariant 0 <= totalLbas && done + totalLbas == blockCount && |commands| <= failing
      invariant slba == blockNumber + done && tempBuffer == buffer + bytes && bytes == Multiple(perBlock, done)
      invariant FirstOnes(commands, blockNumber, blockCount, buffer, perBlock, limit)
      invariant done == Transferred(blockCount, limit, |commands|) && (totalLbas > 0 ==> lbas == limit)
      decreases totalLbas
    {
      if totalLbas < lbas {
        lbas := totalLbas;
        totalLbas := 0;
      } else {
        totalLbas := totalLbas - lbas;
      }
      FirstOnesNext(commands, Rw(slba, lbas - 1, tempBuffer), blockNumber, blockCount, buffer, perBlock, limit, done,
        lbas);
      commands := commands + [Rw(slba, lbas - 1, tempBuffer)];
      if |commands| - 1 == failing {
        assert IsNth(commands[failing], blockNumber, blockCount, buffer, perBlock, limit, failing);
        ChunkedUpTo(commands, bytes, done, blockNumber, blockCount, buffer, perBlock, limit, failing);
        return;
      }
      slba := slba + lbas;
      var size := SizeOf(lbas, perBlock);
      MultipleSum(perBlock, done, lbas);
      bytes := bytes + size;
      tempBuffer := tempBuffer + size;
      done := done + lbas;
    }
    ChunkedUpTo(commands, bytes, done, blockNumber, blockCount, buffer, perBlock, limit, failing);
  }

  // ------------------------------------------------------------------ when the loop does not end

  /** The variables of the chunking loop and the commands it has issued. */
  datatype Loop = Loop(lbas: nat, totalLbas: nat, slba: nat, tempBuffer: nat, commands: seq<Rw>)

  /** One turn whose command succeeds; the command's length is kept in 16 bits. */
  function Turn(s: Loop, lbaShift: nat): Loop
  {
    if s.totalLbas == 0 then s
    else
      var lbas := Min(s.totalLbas, s.lbas);
      var left := if s.totalLbas < s.lbas then 0 else s.totalLbas - s.lbas;
      Loop(lbas, left, s.slba + lbas, s.tempBuffer + lbas * Pow2(lbaShift),
        s.commands + [Rw(s.slba, (lbas - 1) % 0x1_0000, s.tempBuffer)])
  }

  function Turns(s: Loop, lbaShift: nat, n: nat): Loop
  {
    if n == 0 then s else Turn(Turns(s, lbaShift, n - 1), lbaShift)
  }

  function Start(blockNumber: nat, blockCount: nat, buffer: nat, transferShift: nat, lbaShift: nat): Loop
    requires lbaShift <= transferShift
  {
    Loop(LbasPerCommand(transferShift - lbaShift), blockCount, blockNumber, buffer, [])
  }

  /** With a limit of 0 every turn issues the same command, for 65536 blocks, and changes nothing else. */
  lemma {:induction false} TurnsWithoutLimit(s: Loop, lbaShift: nat, n: nat)
    requires s.lbas == 0 && s.totalLbas > 0
    ensures Turns(s, lbaShift, n) == s.(commands := s.commands + seq(n, _ => Rw(s.slba, 0xFFFF, s.tempBuffer)))
  {
    if n == 0 {
      assert s.commands + [] == s.commands;
    } else {
      TurnsWithoutLimit(s, lbaShift, n - 1);
      assert seq(n, _ => Rw(s.slba, 0xFFFF, s.tempBuffer)) == seq(n - 1, _ => Rw(s.slba, 0xFFFF, s.tempBuffer)) +
        [Rw(s.slba, 0xFFFF, s.tempBuffer)];
    }
  }

  lemma {:induction false} TurnsWithLimit(s: Loop, lbaShift: nat, n: nat)
    requires s.lbas > 0
    ensures var t := Turns(s, lbaShift, n);
      t.totalLbas <= (if n <= s.totalLbas then s.totalLbas - n else 0) && t.lbas > 0
  {
    if n > 0 { TurnsWithLimit(s, lbaShift, n - 1); }
  }

  /** If no command fails, the loop goes on for ever exactly if there is a block to transfer and the limit is 2^16
      blocks or more. */
  lemma EndlessExactly(blockNumber: nat, blockCount: nat, buffer: nat, transferShift: nat, lbaShift: nat)
    requires lbaShift <= transferShift
    ensures (forall n: nat ::
      Turns(Start(blockNumber, blockCount, buffer, transferShift, lbaShift), lbaShift, n).totalLbas > 0)
      <==> blockCount > 0 && transferShift - lbaShift >= 16
  {
    var s := Start(blockNumber, blockCount, buffer, transferShift, lbaShift);
    LimitTruncates(transferShift - lbaShift);
    if blockCount > 0 && transferShift - lbaShift >= 16 {
      forall n: nat ensures Turns(s, lbaShift, n).totalLbas > 0 {
        TurnsWithoutLimit(s, lbaShift, n);
      }
    } else if blockCount == 0 {
      assert Turns(s, lbaShift, 0).totalLbas == 0;
    } else {
      TurnsWithLimit(s, lbaShift, blockCount);
    }
  }

  /** Every block of the request is in exactly one command. */
  lemma {:induction false} TilesOnce(commands: seq<Rw>, slba: nat, count: nat, buffer: nat, perBlock: nat, limit: nat,
                                     b: nat)
    requires Tiles(commands, slba, count, buffer, perBlock, limit)
    ensures slba <= b < slba + count <==> exists i | 0 <= i < |commands| :: Holds(commands[i], b)
    ensures forall i, j | 0 <= i < j < |commands| :: !(Holds(commands[i], b) && Holds(commands[j], b))
    ensures forall i | 0 <= i < |commands| && Holds(commands[i], b) :: slba <= b < slba + count
  {
    if commands != [] {
      var n := |commands| - 1;
      var rest := count - commands[n].length - 1;
      TilesOnce(commands[..n], slba, rest, buffer, perBlock, limit, b);
      assert forall i | 0 <= i < n :: commands[..n][i] == commands[i];
      if slba <= b < slba + count {
        if b >= slba + rest {
          assert Holds(commands[n], b);
        } else {
          var i :| 0 <= i < n && Holds(commands[..n][i], b);
          assert Holds(commands[i], b);
        }
      }
    }
  }

  predicate Holds(c: Rw, b: nat)
  {
    c.slba <= b <= c.slba + c.length
  }
}
