/** The installer's undo log as it sits in memory: a fixed array of saved ranges with its fill count,
    the scratch array used to reverse it, and the flag that switches recording off. */
module UndoBuffer {
  import opened Prelude
  import opened Bytes
  import opened UndoLog
  import opened UndoFile

  const UNINSTALL_DATA_MAX: nat := 256

  ghost predicate WordSized(log: seq<UndoEntry>)
  {
    forall i | 0 <= i < |log| :: log[i].loc < WORD_LIMIT && |log[i].data| < WORD_LIMIT
  }

  class Buffer {
    const entries: array<UndoEntry>
    const reversed: array<UndoEntry>
    var count: nat
    var uninstalling: bool

    ghost predicate Valid()
      reads this
    {
      && entries != reversed
      && entries.Length == reversed.Length == UNINSTALL_DATA_MAX
      && count <= UNINSTALL_DATA_MAX
    }

    ghost function Log(): (log: seq<UndoEntry>)
      requires Valid()
      reads this, entries
    {
      entries[..count]
    }

    constructor ()
      ensures Valid() && count == 0 && !uninstalling && Log() == []
      ensures fresh(entries) && fresh(reversed)
    {
      entries := new UndoEntry[UNINSTALL_DATA_MAX](_ => UndoEntry(0, []));
      reversed := new UndoEntry[UNINSTALL_DATA_MAX](_ => UndoEntry(0, []));
      count, uninstalling := 0, false;
    }

    /** Fills the next free slot without counting it. */
    method Fill(e: UndoEntry)
      requires Valid() && count < UNINSTALL_DATA_MAX
      modifies entries
      ensures Log() == old(Log()) && entries[count] == e
    {
      entries[count] := e;
    }

    /** Counts the slot filled last. */
    method Commit()
      requires Valid() && count < UNINSTALL_DATA_MAX
      modifies this`count
      ensures Valid() && count == old(count) + 1 && Log() == old(Log()) + [entries[old(count)]]
    {
      count := count + 1;
    }

    method ReverseLog()
      requires Valid()
      modifies entries, reversed
      ensures Log() == Reverse(old(Log()))
    {
      for i := 0 to count
        invariant forall k | 0 <= k < i :: reversed[count - 1 - k] == old(entries[k])
        invariant entries[..] == old(entries[..])
      {
        reversed[count - 1 - i] := entries[i];
      }
      forall k | 0 <= k < count { entries[k] := reversed[k]; }
    }

    /** Writes the log to the uninstall-data file; fails at the first entry without bytes. */
    method Store() returns (ok: bool, file: seq<Byte>)
      requires Valid() && WordSized(Log())
      ensures ok <==> AllStorable(Log())
      ensures ok ==> file == Encode(Log())
    {
      ghost var log := Log();
      file := LittleEndian(count, WORD);
      for i := 0 to count
        invariant AllStorable(log[..i])
        invariant file == LittleEndian(count, WORD) + EncodeEntries(log[..i])
      {
        var e := entries[i];
        assert e == log[i];
        if |e.data| == 0 {
          return false, file;
        }
        EncodeEntriesAppend(log[..i], e);
        assert log[..i + 1] == log[..i] + [e];
        Regroup(file, LittleEndian(e.loc, WORD), LittleEndian(|e.data|, WORD), e.data);
        Regroup(LittleEndian(count, WORD), EncodeEntries(log[..i]), EncodeEntry(e), []);
        file := file + LittleEndian(e.loc, WORD) + LittleEndian(|e.data|, WORD) + e.data;
      }
      assert log[..count] == log;
      ok := true;
    }

    /** Reads an uninstall-data file whose entry count does not exceed the log's capacity. */
    method Load(file: seq<Byte>) returns (ok: bool)
      requires Valid()
      requires |file| >= WORD ==> FromLittleEndian(file[..WORD]) <= UNINSTALL_DATA_MAX
      modifies this`count, entries
      ensures Valid()
      ensures ok <==> Decode(file).Some?
      ensures ok ==> Log() == Decode(file).value && WordSized(Log())
    {
      if |file| < WORD {
        return false;
      }
      var n := FromLittleEndian(file[..WORD]);
      count := n;
      var rest := file[WORD..];
      ghost var done := [];
      for i := 0 to n
        invariant |done| == i && entries[..i] == done && WordSized(done) && count == n
        invariant DecodeEntries(n, file[WORD..]) == Prepend(done, DecodeEntries(n - i, rest))
      {
        var entry := DecodeEntry(rest);
        if entry.None? {
          return false;
        }
        PrependStep(done, entry.value.0, DecodeEntries(n - i - 1, entry.value.1));
        entries[i] := entry.value.0;
        rest := entry.value.1;
        done := done + [entries[i]];
      }
      ok := true;
    }
  }

  lemma Regroup(a: seq<Byte>, b: seq<Byte>, c: seq<Byte>, d: seq<Byte>)
    ensures a + b + c + d == a + (b + c + d)
    ensures a + b + c == a + (b + c) && c + [] == c
  {
  }

  ghost function Prepend(done: seq<UndoEntry>, tail: Option<seq<UndoEntry>>): (r: Option<seq<UndoEntry>>)
    ensures done == [] ==> r == tail
  {
    if done == [] || tail.None? then tail else Some(done + tail.value)
  }

  lemma PrependStep(done: seq<UndoEntry>, e: UndoEntry, tail: Option<seq<UndoEntry>>)
    ensures Prepend(done, Prepend([e], tail)) == Prepend(done + [e], tail)
  {
    assert [] + [e] == [e];
    if tail.Some? {
      assert done + ([e] + tail.value) == (done + [e]) + tail.value;
    }
  }
}
