/** The uninstall-data file: a 64-bit entry count, then for each entry its 64-bit location, its
    64-bit length and its bytes. Zero-length transfers count as failures, as `fwrite` and `fread`
    of zero bytes return 0. */
module UndoFile {
  import opened Prelude
  import opened Bytes
  import opened UndoLog

  const WORD: nat := 8
  const WORD_LIMIT: nat := 0x1_0000_0000_0000_0000

  predicate Storable(e: UndoEntry)
  {
    e.loc < WORD_LIMIT && 0 < |e.data| < WORD_LIMIT
  }

  ghost predicate AllStorable(log: seq<UndoEntry>)
  {
    forall i | 0 <= i < |log| :: Storable(log[i])
  }

  function EncodeEntry(e: UndoEntry): seq<Byte>
  {
    LittleEndian(e.loc, WORD) + LittleEndian(|e.data|, WORD) + e.data
  }

  function EncodeEntries(log: seq<UndoEntry>): seq<Byte>
  {
    if log == [] then [] else EncodeEntry(log[0]) + EncodeEntries(log[1..])
  }

  function Encode(log: seq<UndoEntry>): seq<Byte>
  {
    LittleEndian(|log|, WORD) + EncodeEntries(log)
  }

  /** The first entry of `file` and what follows it, or None where one of its reads fails. */
  function DecodeEntry(file: seq<Byte>): (r: Option<(UndoEntry, seq<Byte>)>)
    ensures r.Some? ==> Storable(r.value.0) && |r.value.1| < |file|
  {
    if |file| < 2 * WORD then None else
    var loc := FromLittleEndian(file[..WORD]);
    var count := FromLittleEndian(file[WORD..2 * WORD]);
    if count == 0 || |file| < 2 * WORD + count then None else
    WordBound(file[..WORD]);
    WordBound(file[WORD..2 * WORD]);
    Some((UndoEntry(loc, file[2 * WORD..2 * WORD + count]), file[2 * WORD + count..]))
  }

  function DecodeEntries(n: nat, file: seq<Byte>): (r: Option<seq<UndoEntry>>)
    ensures r.Some? ==> |r.value| == n
  {
    if n == 0 then Some([]) else
    var first := DecodeEntry(file);
    if first.None? then None else
    var rest := DecodeEntries(n - 1, first.value.1);
    if rest.None? then None else Some([first.value.0] + rest.value)
  }

  function Decode(file: seq<Byte>): Option<seq<UndoEntry>>
  {
    if |file| < WORD then None else DecodeEntries(FromLittleEndian(file[..WORD]), file[WORD..])
  }

  lemma WordBound(s: seq<Byte>)
    requires |s| == WORD
    ensures FromLittleEndian(s) < WORD_LIMIT && LittleEndian(FromLittleEndian(s), WORD) == s
  {
    FromLittleEndianInverse(s);
    PowWord();
  }

  lemma PowWord()
    ensures Pow256(WORD) == WORD_LIMIT
  {
    assert Pow256(4) == 0x1_0000_0000;
    assert Pow256(6) == 0x1_0000_0000_0000;
  }

  /** `DecodeEntry` accepts exactly the files that begin with the image of a storable entry. */
  lemma EntryExact(e: UndoEntry, file: seq<Byte>, rest: seq<Byte>)
    ensures DecodeEntry(file) == Some((e, rest)) <==> Storable(e) && file == EncodeEntry(e) + rest
  {
    if Storable(e) && file == EncodeEntry(e) + rest {
      PowWord();
      LittleEndianRoundTrip(e.loc, WORD);
      LittleEndianRoundTrip(|e.data|, WORD);
      assert file[..WORD] == LittleEndian(e.loc, WORD);
      assert file[WORD..2 * WORD] == LittleEndian(|e.data|, WORD);
      assert file[2 * WORD..2 * WORD + |e.data|] == e.data;
      assert file[2 * WORD + |e.data|..] == rest;
    }
    if DecodeEntry(file) == Some((e, rest)) {
      WordBound(file[..WORD]);
      WordBound(file[WORD..2 * WORD]);
      assert file == EncodeEntry(e) + rest;
    }
  }

  /** An accepted entry has its location in bytes 0 to 8, its length in bytes 8 to 16 and its data from byte 16 on. */
  lemma EntryPlaces(file: seq<Byte>)
    requires DecodeEntry(file).Some?
    ensures var (e, rest) := DecodeEntry(file).value;
      && |file| == 16 + |e.data| + |rest| && file[16..16 + |e.data|] == e.data && file[16 + |e.data|..] == rest
      && (forall i | 0 <= i < 8 :: file[i] == e.loc / Pow256(i) % 256)
      && forall i | 0 <= i < 8 :: file[8 + i] == |e.data| / Pow256(i) % 256
  {
    var (e, rest) := DecodeEntry(file).value;
    EntryExact(e, file, rest);
    forall i | 0 <= i < 8
      ensures file[i] == e.loc / Pow256(i) % 256 && file[8 + i] == |e.data| / Pow256(i) % 256
    {
      LittleEndianAt(e.loc, WORD, i);
      LittleEndianAt(|e.data|, WORD, i);
      assert file[i] == LittleEndian(e.loc, WORD)[i] && file[8 + i] == LittleEndian(|e.data|, WORD)[i];
    }
  }

  lemma {:induction false} StoredLoads(log: seq<UndoEntry>, file: seq<Byte>)
    requires AllStorable(log) && EncodeEntries(log) <= file
    ensures DecodeEntries(|log|, file) == Some(log)
    decreases |log|
  {
    if log != [] {
      var e := log[0];
      var rest := file[|EncodeEntry(e)|..];
      assert file == EncodeEntry(e) + rest;
      EntryExact(e, file, rest);
      assert EncodeEntries(log[1..]) == EncodeEntries(log)[|EncodeEntry(e)|..];
      StoredLoads(log[1..], rest);
      assert log == [e] + log[1..];
    }
  }

  lemma {:induction false} LoadedIsStored(log: seq<UndoEntry>, file: seq<Byte>)
    requires DecodeEntries(|log|, file) == Some(log)
    ensures AllStorable(log) && EncodeEntries(log) <= file
    decreases |log|
  {
    if log != [] {
      var e, rest := log[0], DecodeEntry(file).value.1;
      var tail := DecodeEntries(|log| - 1, rest).value;
      assert DecodeEntry(file).value.0 == e && tail == log[1..];
      EntryExact(e, file, rest);
      LoadedIsStored(log[1..], rest);
      assert forall i | 1 <= i < |log| :: log[i] == log[1..][i - 1];
    }
  }

  lemma EntriesExact(log: seq<UndoEntry>, file: seq<Byte>)
    ensures DecodeEntries(|log|, file) == Some(log) <==> AllStorable(log) && EncodeEntries(log) <= file
  {
    if AllStorable(log) && EncodeEntries(log) <= file { StoredLoads(log, file); }
    if DecodeEntries(|log|, file) == Some(log) { LoadedIsStored(log, file); }
  }

  /** Loading succeeds with `log` exactly on the files that start with the stored image of `log` and
      only if no entry is empty; in particular storing and loading round-trips. */
  lemma DecodeExact(log: seq<UndoEntry>, file: seq<Byte>)
    requires |log| < WORD_LIMIT
    ensures Decode(file) == Some(log) <==> AllStorable(log) && Encode(log) <= file
  {
    if |file| >= WORD {
      PowWord();
      LittleEndianRoundTrip(|log|, WORD);
      WordBound(file[..WORD]);
      EntriesExact(log, file[WORD..]);
      if Encode(log) <= file {
        assert file[..WORD] == LittleEndian(|log|, WORD);
        assert EncodeEntries(log) == Encode(log)[WORD..] <= file[WORD..];
      }
      if Decode(file) == Some(log) {
        assert file == file[..WORD] + file[WORD..];
      }
    }
  }

  lemma {:induction false} EncodeEntriesAppend(log: seq<UndoEntry>, e: UndoEntry)
    ensures EncodeEntries(log + [e]) == EncodeEntries(log) + EncodeEntry(e)
  {
    if log == [] {
      assert [e][1..] == [];
    } else {
      EncodeEntriesAppend(log[1..], e);
      assert (log + [e])[1..] == log[1..] + [e];
    }
  }
}
