/** What the installer's undo log means, on plain byte sequences: overwriting a range, replaying
    a list of saved ranges, and the condition under which replaying a log backwards restores
    the bytes that were there before the first logged write. */
module UndoLog {
  import opened Bytes

  datatype UndoEntry = UndoEntry(loc: nat, data: seq<Byte>)

  predicate Fits(size: nat, loc: nat, count: nat)
  {
    count == 0 || loc + count <= size
  }

  ghost function Overwrite(s: seq<Byte>, loc: nat, data: seq<Byte>): (r: seq<Byte>)
    requires Fits(|s|, loc, |data|)
    ensures |r| == |s|
    ensures forall p {:trigger r[p]} | 0 <= p < |s| ::
      r[p] == if loc <= p < loc + |data| then data[p - loc] else s[p]
  {
    seq(|s|, p requires 0 <= p < |s| => if loc <= p < loc + |data| then data[p - loc] else s[p])
  }

  ghost function Slice(s: seq<Byte>, loc: nat, count: nat): (r: seq<Byte>)
    requires Fits(|s|, loc, count)
    ensures |r| == count
  {
    if count == 0 then [] else s[loc..loc + count]
  }

  lemma OverwriteWithin(s: seq<Byte>, at: nat, block: seq<Byte>, offset: nat, chunk: seq<Byte>)
    requires at + |block| <= |s| && offset + |chunk| <= |block|
    ensures Overwrite(s, at, Overwrite(block, offset, chunk)) == Overwrite(Overwrite(s, at, block), at + offset, chunk)
  {
  }

  lemma OverwriteReadBack(s: seq<Byte>, at: nat, block: seq<Byte>, offset: nat, n: nat)
    requires at + |block| <= |s| && offset + n <= |block|
    ensures Overwrite(s, at, block)[at + offset..at + offset + n] == block[offset..offset + n]
  {
  }

  lemma OverwriteAppend(s: seq<Byte>, loc: nat, a: seq<Byte>, b: seq<Byte>)
    requires Fits(|s|, loc, |a| + |b|)
    ensures Overwrite(s, loc, a + b) == Overwrite(Overwrite(s, loc, a), loc + |a|, b)
  {
  }

  lemma SliceAppend(s: seq<Byte>, loc: nat, n: nat, m: nat)
    requires Fits(|s|, loc, n + m)
    ensures Slice(s, loc, n + m) == Slice(s, loc, n) + Slice(s, loc + n, m)
  {
  }

  ghost predicate AllFit(size: nat, entries: seq<UndoEntry>)
  {
    forall i | 0 <= i < |entries| :: Fits(size, entries[i].loc, |entries[i].data|)
  }

  lemma AllFitAppend(size: nat, entries: seq<UndoEntry>, e: UndoEntry)
    ensures AllFit(size, entries + [e]) <==> AllFit(size, entries) && Fits(size, e.loc, |e.data|)
  {
    if AllFit(size, entries + [e]) {
      forall i | 0 <= i < |entries| ensures Fits(size, entries[i].loc, |entries[i].data|) {
        assert entries[i] == (entries + [e])[i];
      }
      assert e == (entries + [e])[|entries|];
    }
  }

  /** Writes the entries back one after the other, first to last. */
  ghost function Replay(s: seq<Byte>, entries: seq<UndoEntry>): (r: seq<Byte>)
    requires AllFit(|s|, entries)
    ensures |r| == |s|
    decreases |entries|
  {
    if entries == [] then s
    else Replay(Overwrite(s, entries[0].loc, entries[0].data), entries[1..])
  }

  function Reverse<T>(s: seq<T>): (r: seq<T>)
    ensures |r| == |s|
    ensures forall i | 0 <= i < |s| :: r[i] == s[|s| - 1 - i]
  {
    if s == [] then [] else Reverse(s[1..]) + [s[0]]
  }

  predicate Covers(e: UndoEntry, p: nat)
  {
    e.loc <= p < e.loc + |e.data|
  }

  ghost predicate Covered(entries: seq<UndoEntry>, p: nat)
  {
    exists i | 0 <= i < |entries| :: Covers(entries[i], p)
  }

  /** The byte that the oldest entry covering `p` saved, or `fallback` if none covers it. */
  ghost function OldestSaved(log: seq<UndoEntry>, p: nat, fallback: Byte): Byte
  {
    if log == [] then fallback
    else if Covers(log[0], p) then log[0].data[p - log[0].loc]
    else OldestSaved(log[1..], p, fallback)
  }

  /** `log` was recorded, oldest entry first, while the bytes evolved from `orig` to `now`. */
  ghost predicate Records(orig: seq<Byte>, log: seq<UndoEntry>, now: seq<Byte>)
  {
    && |now| == |orig|
    && AllFit(|orig|, log)
    && (forall p | 0 <= p < |orig| :: OldestSaved(log, p, orig[p]) == orig[p])
    && (forall p | 0 <= p < |orig| && !Covered(log, p) :: now[p] == orig[p])
  }

  lemma {:induction false} ReplayAppend(s: seq<Byte>, entries: seq<UndoEntry>, e: UndoEntry)
    requires AllFit(|s|, entries) && Fits(|s|, e.loc, |e.data|)
    ensures AllFit(|s|, entries + [e])
    ensures Replay(s, entries + [e]) == Overwrite(Replay(s, entries), e.loc, e.data)
    decreases |entries|
  {
    if entries == [] {
      assert [e][1..] == [];
    } else {
      assert (entries + [e])[1..] == entries[1..] + [e];
      ReplayAppend(Overwrite(s, entries[0].loc, entries[0].data), entries[1..], e);
    }
  }

  /** Backwards replay leaves at each position what the oldest entry covering it saved. */
  lemma {:induction false} ReverseReplayAt(s: seq<Byte>, log: seq<UndoEntry>, p: nat)
    requires AllFit(|s|, log) && p < |s|
    ensures AllFit(|s|, Reverse(log))
    ensures Replay(s, Reverse(log))[p] == OldestSaved(log, p, s[p])
  {
    if log != [] {
      ReverseReplayAt(s, log[1..], p);
      ReplayAppend(s, Reverse(log[1..]), log[0]);
    }
  }

  lemma {:induction false} OldestSavedAppend(log: seq<UndoEntry>, e: UndoEntry, p: nat, fallback: Byte)
    ensures OldestSaved(log + [e], p, fallback)
         == if Covered(log, p) then OldestSaved(log, p, fallback)
            else if Covers(e, p) then e.data[p - e.loc] else fallback
  {
    if log == [] {
      assert [e][1..] == [];
    } else {
      assert (log + [e])[1..] == log[1..] + [e];
      OldestSavedAppend(log[1..], e, p, fallback);
      assert Covered(log, p) <==> Covers(log[0], p) || Covered(log[1..], p) by {
        if Covers(log[0], p) { assert Covered(log, p); }
        if Covered(log[1..], p) {
          var i :| 0 <= i < |log[1..]| && Covers(log[1..][i], p);
          assert Covers(log[i + 1], p);
        }
        if Covered(log, p) && !Covers(log[0], p) {
          var i :| 0 <= i < |log| && Covers(log[i], p);
          assert Covers(log[1..][i - 1], p);
        }
      }
    }
  }

  lemma {:induction false} OldestSavedIgnoresFallback(log: seq<UndoEntry>, p: nat, x: Byte, y: Byte)
    requires Covered(log, p)
    ensures OldestSaved(log, p, x) == OldestSaved(log, p, y)
  {
    if !Covers(log[0], p) {
      var i :| 0 <= i < |log| && Covers(log[i], p);
      assert Covers(log[1..][i - 1], p);
      OldestSavedIgnoresFallback(log[1..], p, x, y);
    }
  }

  /** The rollback law: whatever the covered bytes of `now` are, replaying the log backwards over
      `now` gives back the original. */
  lemma {:induction false} RollbackRestores(orig: seq<Byte>, log: seq<UndoEntry>, now: seq<Byte>)
    requires Records(orig, log, now)
    ensures AllFit(|now|, Reverse(log))
    ensures Replay(now, Reverse(log)) == orig
  {
    forall p | 0 <= p < |orig|
      ensures Replay(now, Reverse(log))[p] == orig[p]
    {
      ReverseReplayAt(now, log, p);
      if Covered(log, p) {
        OldestSavedIgnoresFallback(log, p, now[p], orig[p]);
      } else {
        assert now[p] == orig[p];
      }
    }
  }

  /** Logging a write that saves the current bytes keeps the log good for every later content that
      agrees with the current one outside the written range. */
  lemma {:induction false} RecordWrite(orig: seq<Byte>, log: seq<UndoEntry>, now: seq<Byte>, e: UndoEntry,
                                       later: seq<Byte>)
    requires Records(orig, log, now)
    requires Fits(|now|, e.loc, |e.data|) && e.data == Slice(now, e.loc, |e.data|)
    requires |later| == |now|
    requires forall p | 0 <= p < |now| && !Covers(e, p) && !Covered(log, p) :: later[p] == orig[p]
    ensures Records(orig, log + [e], later)
  {
    forall p | 0 <= p < |orig|
      ensures OldestSaved(log + [e], p, orig[p]) == orig[p]
      ensures !Covered(log + [e], p) ==> later[p] == orig[p]
    {
      OldestSavedAppend(log, e, p, orig[p]);
      if !Covered(log + [e], p) {
        assert !Covers(e, p) by { assert (log + [e])[|log|] == e; }
        assert !Covered(log, p) by {
          forall i | 0 <= i < |log| ensures !Covers(log[i], p) { assert (log + [e])[i] == log[i]; }
        }
      }
    }
  }
}
