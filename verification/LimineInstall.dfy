/** Whole runs of the installer over the device layer: any sequence of reads, writes and flushes, the
    clean-up that follows it, and a later `--uninstall` run that starts from the stored log. */
module LimineInstall {
  import opened Prelude
  import opened Bytes
  import opened UndoLog
  import opened UndoFile
  import opened UndoBuffer
  import opened LimineDevice

  /** What the install procedure asks of the device; `Abort` is any check of its own that gives up. */
  datatype Op = Read(loc: nat, count: nat) | Write(loc: nat, data: seq<Byte>) | Flush | Abort

  predicate WordOp(op: Op)
  {
    match op
    case Read(loc, count) => loc < TWO_64 && count < TWO_64
    case Write(loc, data) => loc < TWO_64 && |data| < TWO_64
    case _ => true
  }

  ghost predicate NoEmptyWrite(ops: seq<Op>)
  {
    forall i | 0 <= i < |ops| && ops[i].Write? :: ops[i].data != []
  }

  /** The reference: a flat byte array without cache, block size or log, on which the operations have
      their plain meaning. `reach` is the number of addressable bytes. */
  datatype Flat = Flat(ok: bool, contents: seq<Byte>, got: seq<seq<Byte>>, writes: nat)

  ghost function StepFlat(f: Flat, reach: nat, op: Op): (r: Flat)
    requires reach <= |f.contents|
    ensures |r.contents| == |f.contents|
  {
    if !f.ok then f else
    match op
    case Read(loc, count) =>
      if Fits(reach, loc, count) then f.(got := f.got + [Slice(f.contents, loc, count)]) else f.(ok := false)
    case Write(loc, data) =>
      if f.writes < UNINSTALL_DATA_MAX && Fits(reach, loc, |data|)
      then f.(contents := Overwrite(f.contents, loc, data), writes := f.writes + 1)
      else f.(ok := false)
    case Flush => f
    case Abort => f.(ok := false)
  }

  ghost function RunFlat(start: seq<Byte>, reach: nat, ops: seq<Op>): (r: Flat)
    requires reach <= |start|
    ensures |r.contents| == |start|
    decreases |ops|
  {
    if ops == [] then Flat(true, start, [], 0)
    else StepFlat(RunFlat(start, reach, ops[..|ops| - 1]), reach, ops[|ops| - 1])
  }

  lemma {:induction false} FailureIsFinal(start: seq<Byte>, reach: nat, ops: seq<Op>, k: nat)
    requires reach <= |start| && k <= |ops|
    requires !RunFlat(start, reach, ops[..k]).ok
    ensures !RunFlat(start, reach, ops).ok
    decreases |ops|
  {
    if k < |ops| {
      assert ops[..|ops| - 1][..k] == ops[..k];
      FailureIsFinal(start, reach, ops[..|ops| - 1], k);
    } else {
      assert ops[..k] == ops;
    }
  }

  function WriteCount(ops: seq<Op>): nat
  {
    if ops == [] then 0 else WriteCount(ops[..|ops| - 1]) + if ops[|ops| - 1].Write? then 1 else 0
  }

  lemma {:induction false} WriteCountConcat(a: seq<Op>, b: seq<Op>)
    ensures WriteCount(a + b) == WriteCount(a) + WriteCount(b)
  {
    if b == [] {
      assert a + b == a;
    } else {
      WriteCountConcat(a, b[..|b| - 1]);
      assert (a + b)[..|a + b| - 1] == a + b[..|b| - 1];
    }
  }

  predicate OpFits(op: Op, reach: nat)
  {
    match op
    case Read(loc, count) => Fits(reach, loc, count)
    case Write(loc, data) => Fits(reach, loc, |data|)
    case Flush => true
    case Abort => false
  }

  /** A run succeeds if and only if no check of its own gives up, every transfer lies on the device, and the undo log
      has an entry for every write. */
  lemma {:induction false} RunOkExactly(start: seq<Byte>, reach: nat, ops: seq<Op>)
    requires reach <= |start|
    ensures RunFlat(start, reach, ops).ok <==>
      WriteCount(ops) <= UNINSTALL_DATA_MAX && forall i | 0 <= i < |ops| :: OpFits(ops[i], reach)
    ensures RunFlat(start, reach, ops).ok ==> RunFlat(start, reach, ops).writes == WriteCount(ops)
    decreases |ops|
  {
    if ops != [] {
      var rest := ops[..|ops| - 1];
      RunOkExactly(start, reach, rest);
      assert ops == rest + [ops[|ops| - 1]];
      assert forall i | 0 <= i < |rest| :: ops[i] == rest[i];
    }
  }

  /** The log is good for the device as it is and for the device with the cached block laid over it. */
  ghost predicate Recording(orig: seq<Byte>, reach: nat, log: seq<UndoEntry>, disk: seq<Byte>, view: seq<Byte>)
  {
    && Records(orig, log, disk)
    && Records(orig, log, view)
    && AllFit(reach, log)
    && WordSized(log)
  }

  lemma RecordingSettles(orig: seq<Byte>, reach: nat, log: seq<UndoEntry>, disk: seq<Byte>, view: seq<Byte>,
                         disk': seq<Byte>)
    requires Recording(orig, reach, log, disk, view) && Device.Settled(disk, view, disk')
    ensures Recording(orig, reach, log, disk', view)
  {
    forall p | 0 <= p < |orig| && !Covered(log, p)
      ensures disk'[p] == orig[p]
    {
      assert disk[p] == orig[p] && view[p] == orig[p];
    }
  }

  lemma RecordingWrites(orig: seq<Byte>, reach: nat, log: seq<UndoEntry>, disk: seq<Byte>, view: seq<Byte>,
                        disk': seq<Byte>, loc: nat, data: seq<Byte>)
    requires Recording(orig, reach, log, disk, view) && WordOp(Write(loc, data))
    requires reach <= |view| && Fits(reach, loc, |data|)
    requires Device.SettledOutside(disk, view, disk', loc, loc + |data|)
    ensures Recording(orig, reach, log + [UndoEntry(loc, Slice(view, loc, |data|))], disk', Overwrite(view, loc, data))
  {
    var e := UndoEntry(loc, Slice(view, loc, |data|));
    forall p | 0 <= p < |orig| && !Covers(e, p) && !Covered(log, p)
      ensures disk'[p] == orig[p] && Overwrite(view, loc, data)[p] == orig[p]
    {
      assert disk[p] == orig[p] && view[p] == orig[p];
    }
    RecordWrite(orig, log, view, e, disk');
    RecordWrite(orig, log, view, e, Overwrite(view, loc, data));
    AllFitAppend(reach, log, e);
  }

  /** The state of a recording run: the layer presents what the flat reference holds, and the log
      undoes it. */
  ghost predicate InStep(d: Device, orig: seq<Byte>, flat: Flat)
    reads d, d.cache, d.undo, d.undo.entries
  {
    && d.Valid() && d.undo.Valid() && !d.undo.uninstalling
    && d.Reach() <= |orig| == |d.disk|
    && flat.ok && d.view == flat.contents && d.undo.count == flat.writes
    && Recording(orig, d.Reach(), d.undo.Log(), d.disk, d.view)
  }

  /** One operation, against one step of the flat reference. */
  method Perform(d: Device, op: Op, ghost orig: seq<Byte>, ghost flat: Flat) returns (ok: bool, got: seq<seq<Byte>>)
    requires InStep(d, orig, flat) && WordOp(op)
    modifies d`disk, d`dirty, d`view, d`cachedBlock, d.cache, d.undo`count, d.undo.entries
    ensures d.Usable() && d.undo.Valid() && !d.undo.uninstalling && |d.disk| == |orig|
    ensures ok == StepFlat(flat, d.Reach(), op).ok
    ensures ok ==> InStep(d, orig, StepFlat(flat, d.Reach(), op))
    ensures ok ==> flat.got + got == StepFlat(flat, d.Reach(), op).got
    ensures Records(orig, d.undo.Log(), d.disk) && AllFit(d.Reach(), d.undo.Log()) && WordSized(d.undo.Log())
    ensures ok ==> (AllStorable(d.undo.Log()) <==> AllStorable(old(d.undo.Log())) && (op.Write? ==> op.data != []))
  {
    ghost var reach, log, disk, view := d.Reach(), d.undo.Log(), d.disk, d.view;
    got := [];
    match op {
      case Read(loc, count) =>
        var buffer;
        ok, buffer := d.DeviceRead(loc, count);
        RecordingSettles(orig, reach, log, disk, view, d.disk);
        got := [buffer];
      case Write(loc, data) =>
        ok := d.DeviceWrite(data, loc);
        if ok {
          RecordingWrites(orig, reach, log, disk, view, d.disk, loc, data);
          AllStorableAppend(log, UndoEntry(loc, Slice(view, loc, |data|)));
        } else {
          RecordingSettles(orig, reach, log, disk, view, d.disk);
        }
      case Flush =>
        d.FlushCache();
        RecordingSettles(orig, reach, log, disk, view, d.disk);
        ok := true;
      case Abort =>
        ok := false;
    }
  }

  /** The procedure up to the clean-up: stops at the first operation that fails. */
  method Run(d: Device, ops: seq<Op>) returns (ok: bool, got: seq<seq<Byte>>)
    requires d.Valid() && !d.dirty && d.undo.Valid() && !d.undo.uninstalling && d.undo.Log() == []
    requires forall i | 0 <= i < |ops| :: WordOp(ops[i])
    modifies d`disk, d`dirty, d`view, d`cachedBlock, d.cache, d.undo`count, d.undo.entries
    ensures d.Usable() && d.undo.Valid() && !d.undo.uninstalling && d.Reach() <= |d.disk| == |old(d.disk)|
    ensures ok == RunFlat(old(d.disk), d.Reach(), ops).ok
    ensures ok ==> d.Valid() && d.view == RunFlat(old(d.disk), d.Reach(), ops).contents
    ensures ok ==> got == RunFlat(old(d.disk), d.Reach(), ops).got
    ensures Records(old(d.disk), d.undo.Log(), d.disk)
    ensures ok ==> Records(old(d.disk), d.undo.Log(), d.view)
    ensures AllFit(d.Reach(), d.undo.Log()) && WordSized(d.undo.Log())
    ensures ok ==> (AllStorable(d.undo.Log()) <==> NoEmptyWrite(ops))
  {
    d.CleanView();
    ghost var orig, reach := d.disk, d.Reach();
    got := [];
    assert ops[..0] == [];
    for i := 0 to |ops|
      invariant InStep(d, orig, RunFlat(orig, reach, ops[..i])) && d.Reach() == reach &&
        got == RunFlat(orig, reach, ops[..i]).got
      invariant AllStorable(d.undo.Log()) <==> NoEmptyWrite(ops[..i])
    {
      FlatNext(orig, reach, ops, i);
      var bytes;
      ok, bytes := Perform(d, ops[i], orig, RunFlat(orig, reach, ops[..i]));
      if !ok {
        FailureIsFinal(orig, reach, ops, i + 1);
        return;
      }
      got := got + bytes;
    }
    assert ops[..|ops|] == ops;
    ok := true;
  }

  lemma FlatNext(orig: seq<Byte>, reach: nat, ops: seq<Op>, i: nat)
    requires i < |ops| && reach <= |orig|
    ensures RunFlat(orig, reach, ops[..i + 1]) == StepFlat(RunFlat(orig, reach, ops[..i]), reach, ops[i])
    ensures NoEmptyWrite(ops[..i + 1]) <==> NoEmptyWrite(ops[..i]) && (ops[i].Write? ==> ops[i].data != [])
  {
    NoEmptyWriteAppend(ops[..i], ops[i]);
    assert ops[..i + 1] == ops[..i] + [ops[i]];
    assert ops[..i + 1][..i] == ops[..i];
  }

  /** A whole `bios-install` run, clean-up included. A run that fails leaves the device exactly as it was;
      a run that succeeds leaves what the flat reference says, and a log that undoes it. */
  method Install(d: Device, ops: seq<Op>) returns (ok: bool, got: seq<seq<Byte>>, stored: bool, file: seq<Byte>)
    requires d.Valid() && !d.dirty && d.undo.Valid() && !d.undo.uninstalling && d.undo.Log() == []
    requires forall i | 0 <= i < |ops| :: WordOp(ops[i])
    modifies d`disk, d`dirty, d`view, d`cachedBlock, d.cache
    modifies d.undo`count, d.undo`uninstalling, d.undo.entries, d.undo.reversed
    ensures d.Usable() && d.undo.Valid() && d.Reach() <= |d.disk| == |old(d.disk)|
    ensures ok == RunFlat(old(d.disk), d.Reach(), ops).ok
    ensures !ok ==> d.disk == old(d.disk)
    ensures ok ==> d.disk == RunFlat(old(d.disk), d.Reach(), ops).contents
    ensures ok ==> got == RunFlat(old(d.disk), d.Reach(), ops).got
    ensures AllFit(d.Reach(), d.undo.Log()) && AllFit(|d.disk|, d.undo.Log()) && WordSized(d.undo.Log())
    ensures ok ==> Replay(d.disk, d.undo.Log()) == old(d.disk)
    ensures stored <==> ok && NoEmptyWrite(ops)
    ensures stored ==> AllStorable(d.undo.Log()) && file == Encode(d.undo.Log())
  {
    ghost var orig := d.disk;
    ok, got := Run(d, ops);
    stored, file := CleanUp(d, ok, orig);
  }

  /** Turns the log around, so that replaying it restores the original device. */
  method ReverseForUndo(d: Device, ghost orig: seq<Byte>)
    requires d.undo.Valid() && d.Reach() <= |d.disk| == |orig| && Records(orig, d.undo.Log(), d.disk)
    requires AllFit(d.Reach(), d.undo.Log()) && WordSized(d.undo.Log())
    modifies d.undo.entries, d.undo.reversed
    ensures d.undo.Valid() && AllFit(d.Reach(), d.undo.Log()) && AllFit(|d.disk|, d.undo.Log()) &&
      WordSized(d.undo.Log())
    ensures Replay(d.disk, d.undo.Log()) == orig && (AllStorable(d.undo.Log()) <==> AllStorable(old(d.undo.Log())))
  {
    RollbackRestores(orig, d.undo.Log(), d.disk);
    ReverseKeeps(d.undo.Log(), d.Reach());
    d.undo.ReverseLog();
  }

  /** The end of a run: a successful one is flushed and its log stored, a failed one is rolled back. */
  method CleanUp(d: Device, ok: bool, ghost orig: seq<Byte>) returns (stored: bool, file: seq<Byte>)
    requires d.Usable() && d.undo.Valid() && !d.undo.uninstalling && d.Reach() <= |d.disk| == |orig|
    requires Records(orig, d.undo.Log(), d.disk) && (ok ==> d.Valid() && Records(orig, d.undo.Log(), d.view))
    requires AllFit(d.Reach(), d.undo.Log()) && WordSized(d.undo.Log())
    modifies d`disk, d`dirty, d`view, d`cachedBlock, d.cache
    modifies d.undo`count, d.undo`uninstalling, d.undo.entries, d.undo.reversed
    ensures d.Usable() && d.undo.Valid() && |d.disk| == |orig|
    ensures AllFit(d.Reach(), d.undo.Log()) && AllFit(|d.disk|, d.undo.Log()) && WordSized(d.undo.Log())
    ensures if ok then d.disk == old(d.view) && Replay(d.disk, d.undo.Log()) == orig else d.disk == orig
    ensures stored <==> ok && AllStorable(old(d.undo.Log()))
    ensures stored ==> AllStorable(d.undo.Log()) && file == Encode(d.undo.Log())
  {
    if ok {
      d.FlushCache();
    }
    ReverseForUndo(d, orig);
    stored, file := false, [];
    if !ok {
      var undone := d.Uninstall();
    } else {
      stored, file := d.undo.Store();
    }
  }

  /** A `--uninstall` run: load the log, then replay it. */
  method UninstallMode(d: Device, file: seq<Byte>) returns (ok: bool)
    requires d.Valid() && d.undo.Valid()
    requires |file| >= WORD ==> FromLittleEndian(file[..WORD]) <= UNINSTALL_DATA_MAX
    modifies d`disk, d`dirty, d`view, d`cachedBlock, d.cache, d.undo`count, d.undo`uninstalling, d.undo.entries
    ensures ok <==> Decode(file).Some? && AllFit(d.Reach(), Decode(file).value)
    ensures ok ==> AllFit(|old(d.disk)|, Decode(file).value) && d.disk == Replay(old(d.disk), Decode(file).value)
    ensures Decode(file).None? ==> d.disk == old(d.disk)
  {
    ok := d.undo.Load(file);
    if ok {
      ok := d.Uninstall();
    }
  }

  /** Install with a stored log, then a separate uninstall run: the device is back to its first contents. */
  method InstallThenUninstall(contents: seq<Byte>, blockSize: nat, ops: seq<Op>)
    returns (installed: bool, restored: bool, final: seq<Byte>)
    requires 2 <= blockSize <= |contents| <= TWO_63
    requires forall i | 0 <= i < |ops| :: WordOp(ops[i])
    ensures restored <==> installed && NoEmptyWrite(ops)
    ensures !installed || restored ==> final == contents
  {
    var d := new Device(contents, blockSize);
    var got, stored, file;
    installed, got, stored, file := Install(d, ops);
    final := d.disk;
    restored := false;
    if stored {
      var later := new Device(final, blockSize);
      ghost var log := d.undo.Log();
      DecodeExact(log, file);
      CountFits(log);
      restored := UninstallMode(later, file);
      final := later.disk;
    }
  }

  lemma ReverseKeeps(log: seq<UndoEntry>, size: nat)
    ensures AllFit(size, log) ==> AllFit(size, Reverse(log))
    ensures WordSized(log) ==> WordSized(Reverse(log))
    ensures AllStorable(log) <==> AllStorable(Reverse(log))
  {
    assert forall i | 0 <= i < |log| :: log[i] == Reverse(log)[|log| - 1 - i];
  }

  lemma AllStorableAppend(log: seq<UndoEntry>, e: UndoEntry)
    ensures AllStorable(log + [e]) <==> AllStorable(log) && Storable(e)
  {
    if AllStorable(log + [e]) {
      assert (log + [e])[|log|] == e;
      assert forall i | 0 <= i < |log| :: log[i] == (log + [e])[i];
    }
  }

  lemma NoEmptyWriteAppend(ops: seq<Op>, op: Op)
    ensures NoEmptyWrite(ops + [op]) <==> NoEmptyWrite(ops) && (op.Write? ==> op.data != [])
  {
    if NoEmptyWrite(ops + [op]) {
      assert (ops + [op])[|ops|] == op;
      assert forall i | 0 <= i < |ops| :: ops[i] == (ops + [op])[i];
    }
  }

  lemma CountFits(log: seq<UndoEntry>)
    requires |log| <= UNINSTALL_DATA_MAX
    ensures FromLittleEndian(Encode(log)[..WORD]) == |log|
  {
    PowWord();
    LittleEndianRoundTrip(|log|, WORD);
    assert Encode(log)[..WORD] == LittleEndian(|log|, WORD);
  }
}
