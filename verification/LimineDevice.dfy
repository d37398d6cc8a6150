/** The installer's device layer: a one-block write-back cache in front of the device, with an undo log that records
    the old bytes of every write until an uninstall replays it. The device is a byte sequence of fixed length. Reading
    a block fails exactly when the block is not wholly on the device; a read of the trailing partial block fails after
    it has already put the bytes that do exist into the cache buffer. */
module LimineDevice {
  import opened Prelude
  import opened Bytes
  import opened UndoLog
  import opened UndoBuffer

  const TWO_64: nat := 0x1_0000_0000_0000_0000
  const TWO_63: nat := 0x8000_0000_0000_0000
  const NO_BLOCK: nat := TWO_64 - 1

  /** `uint64_t` addition. */
  function Add64(a: nat, b: nat): (r: nat)
    requires a < TWO_64 && b < TWO_64
    ensures r < TWO_64
  {
    if a + b < TWO_64 then a + b else a + b - TWO_64
  }

  class Device {
    const blockSize: nat
    ghost const blocks: nat   // whole blocks on the device
    var disk: seq<Byte>
    const cache: array<Byte>
    var cachedBlock: nat
    var dirty: bool
    ghost var view: seq<Byte>   // the flat byte array that the layer presents
    const undo: Buffer

    /** Shape of the fields. */
    ghost predicate Shaped()
      reads this
    {
      && blockSize >= 2
      && cache.Length == blockSize
      && blockSize <= |disk| <= TWO_63
      && Reach() <= |disk| < Reach() + blockSize
    }

    /** Bytes in whole blocks: the part of the device that block reads can reach. */
    ghost function Reach(): (n: nat)
    {
      Multiple(blockSize, blocks)
    }

    /** Shaped, and the cached block is on the device or absent. */
    ghost predicate Usable()
      reads this, cache
    {
      && Shaped()
      && (cachedBlock < blocks || (cachedBlock == NO_BLOCK && !dirty))
      && (cachedBlock < blocks ==> CacheAt() + blockSize <= |disk|)
      && view == (if cachedBlock < blocks then Overwrite(disk, CacheAt(), cache[..]) else disk)
    }

    /** Usable, and a clean cached block holds what the device holds. A failed block read may end this
        by leaving part of another block in the buffer. */
    ghost predicate Valid()
      reads this, cache
    {
      && Usable()
      && (cachedBlock < blocks && !dirty ==> cache[..] == disk[CacheAt()..CacheAt() + blockSize])
    }

    ghost function CacheAt(): (at: nat)
      reads this
    {
      Multiple(blockSize, cachedBlock)
    }

    /** A block is wholly on the device exactly when its number is below `blocks`. */
    lemma BlockBounds(block: nat)
      requires Shaped()
      ensures block < blocks ==> Multiple(blockSize, block) + blockSize <= Reach()
      ensures block >= blocks ==>
        Multiple(blockSize, block) >= Reach() && Multiple(blockSize, block) + blockSize > |disk|
    {
      if block < blocks {
        MultipleMonotone(blockSize, block, blocks);
      } else {
        MultipleMonotone(blockSize, blocks, block);
      }
    }

    lemma CleanView()
      requires Valid() && !dirty
      ensures view == disk
    {
      if cachedBlock < blocks {
        assert Overwrite(disk, CacheAt(), cache[..]) == disk;
      }
    }

    constructor (contents: seq<Byte>, size: nat)
      requires 2 <= size <= |contents| <= TWO_63
      ensures Valid() && disk == contents && view == contents && blockSize == size && blocks == |contents| / size
      ensures !dirty && undo.Valid() && !undo.uninstalling && undo.Log() == []
      ensures fresh(cache) && fresh(undo) && fresh(undo.entries) && fresh(undo.reversed)
    {
      blockSize := size;
      blocks := |contents| / size;
      disk := contents;
      cachedBlock, dirty := 0, false;
      view := contents;
      cache := new Byte[size](i requires 0 <= i < size => contents[i]);
      undo := new Buffer();
      new;
      MultipleIsProduct(size, blocks);
      assert cache[..] == contents[..size];
      assert CacheAt() == 0;
      assert Overwrite(disk, 0, cache[..]) == disk;
    }

    method FlushCache()
      requires Usable()
      modifies this`disk, this`dirty, this`view
      ensures Usable() && !dirty && |disk| == old(|disk|)
      ensures old(Valid()) ==> Valid() && disk == old(view) == view
    {
      if !dirty {
        if Valid() { CleanView(); }
        return;
      }
      MultipleIsProduct(blockSize, cachedBlock);
      var at := cachedBlock * blockSize;
      ghost var flushed := Overwrite(disk, at, cache[..]);
      disk := disk[..at] + cache[..] + disk[at + blockSize..];
      assert disk == flushed;
      dirty := false;
      assert cache[..] == disk[at..at + blockSize];
      assert Overwrite(disk, at, cache[..]) == disk;
    }

    /** `set_pos` and `fread` of one block into the cache buffer. */
    method ReadIntoCache(at: nat) returns (ok: bool)
      requires Shaped()
      modifies cache
      ensures ok <==> at + blockSize <= |disk|
      ensures ok ==> cache[..] == disk[at..at + blockSize]
    {
      ok := at + blockSize <= |disk|;
      if ok {
        forall i | 0 <= i < blockSize { cache[i] := disk[at + i]; }
        assert cache[..] == disk[at..at + blockSize];
      } else {
        forall i | 0 <= i < |disk| - at { cache[i] := disk[at + i]; }
      }
    }

    /** The part of caching a block that follows the flush of the previous one. */
    method LoadBlock(block: nat) returns (ok: bool)
      requires Usable() && !dirty
      modifies this`cachedBlock, this`view, cache
      ensures Usable() && (ok ==> Valid())
      ensures ok <==> block < blocks
      ensures ok ==> cachedBlock == block && view == disk
    {
      BlockBounds(block);
      MultipleIsProduct(blockSize, block);
      var at := block * blockSize;
      ok := ReadIntoCache(at);
      if ok {
        cachedBlock := block;
        assert CacheAt() == at;
        assert Overwrite(disk, at, cache[..]) == disk;
        view := disk;
      } else if cachedBlock < blocks {
        view := Overwrite(disk, CacheAt(), cache[..]);
      }
    }

    method CacheBlock(block: nat) returns (ok: bool)
      requires Usable() && block < NO_BLOCK
      modifies this`disk, this`dirty, this`view, this`cachedBlock, cache
      ensures Usable() && |disk| == old(|disk|)
      ensures ok <==> block < blocks
      ensures ok ==> cachedBlock == block
      ensures old(Valid()) ==> disk == if old(cachedBlock) == block then old(disk) else old(view)
      ensures old(Valid()) && ok ==> Valid() && view == old(view)
    {
      if cachedBlock == block {
        return true;
      }
      if dirty {
        FlushCache();
      } else if Valid() {
        CleanView();
      }
      ok := LoadBlock(block);
    }

    /** Block number and offset of a device position. */
    lemma Locate(pos: nat)
      requires Shaped() && pos < TWO_64
      ensures pos == Multiple(blockSize, pos / blockSize) + pos % blockSize
      ensures pos / blockSize < NO_BLOCK
      ensures pos / blockSize < blocks <==> pos < Reach()
      ensures pos < Reach() ==> pos - pos % blockSize + blockSize <= Reach()
    {
      MultipleIsProduct(blockSize, pos / blockSize);
      BlockBounds(pos / blockSize);
    }

    method BlockOf(pos: nat) returns (block: nat, offset: nat)
      requires Shaped() && pos < TWO_64
      ensures pos == Multiple(blockSize, block) + offset && offset < blockSize && block < NO_BLOCK
      ensures block < blocks <==> pos < Reach()
      ensures pos < Reach() ==> pos - offset + blockSize <= Reach()
    {
      Locate(pos);
      block, offset := pos / blockSize, pos % blockSize;
    }

    /** Every device byte is still the old one or is the old view's. */
    static ghost predicate Settled(wasDisk: seq<Byte>, wasView: seq<Byte>, now: seq<Byte>)
      requires |wasDisk| == |wasView|
    {
      |now| == |wasDisk| && forall p {:trigger now[p]} | 0 <= p < |now| :: now[p] == wasDisk[p] || now[p] == wasView[p]
    }

    /** The same, except for the bytes of the range that is being written. */
    static ghost predicate SettledOutside(wasDisk: seq<Byte>, wasView: seq<Byte>, now: seq<Byte>, lo: nat, hi: nat)
      requires |wasDisk| == |wasView|
    {
      |now| == |wasDisk| && forall p {:trigger now[p]} | 0 <= p < |now| && !(lo <= p < hi) ::
        now[p] == wasDisk[p] || now[p] == wasView[p]
    }

    static lemma SettledThen(wasDisk: seq<Byte>, wasView: seq<Byte>, mid: seq<Byte>, now: seq<Byte>, lo: nat, hi: nat)
      requires |wasDisk| == |wasView| && Settled(wasDisk, wasView, mid) && SettledOutside(mid, wasView, now, lo, hi)
      ensures SettledOutside(wasDisk, wasView, now, lo, hi)
    {
      forall p | 0 <= p < |now| && !(lo <= p < hi)
        ensures now[p] == wasDisk[p] || now[p] == wasView[p]
      {
        assert mid[p] == wasDisk[p] || mid[p] == wasView[p];
      }
    }

    /** One turn of the read loop: cache the block of `pos`, copy out as much of it as is wanted. */
    method ReadChunk(pos: nat, want: nat) returns (ok: bool, chunk: seq<Byte>)
      requires Valid() && pos < TWO_64 && want > 0
      modifies this`disk, this`dirty, this`view, this`cachedBlock, cache
      ensures Usable() && (disk == old(disk) || disk == old(view))
      ensures ok <==> pos < Reach()
      ensures ok ==> Valid() && view == old(view) && 0 < |chunk| <= want && pos + |chunk| <= Reach()
      ensures ok ==> chunk == view[pos..pos + |chunk|]
    {
      var block, offset := BlockOf(pos);
      ok := CacheBlock(block);
      chunk := [];
      if ok {
        chunk := PeekCache(offset, if want > blockSize - offset then blockSize - offset else want);
      }
    }

    /** `memcpy` out of the cached block. */
    method PeekCache(offset: nat, n: nat) returns (chunk: seq<Byte>)
      requires Usable() && cachedBlock < blocks && offset + n <= blockSize
      ensures |chunk| == n && CacheAt() + offset + n <= |view| &&
        chunk == view[CacheAt() + offset..CacheAt() + offset + n]
    {
      chunk := cache[offset..offset + n];
      assert chunk == cache[..][offset..offset + n];
      OverwriteReadBack(disk, CacheAt(), cache[..], offset, n);
    }

    method DeviceRead(loc: nat, count: nat) returns (ok: bool, buffer: seq<Byte>)
      requires Valid() && loc < TWO_64 && count < TWO_64
      modifies this`disk, this`dirty, this`view, this`cachedBlock, cache
      ensures Usable() && Settled(old(disk), old(view), disk)
      ensures ok <==> Fits(Reach(), loc, count)
      ensures ok ==> Valid() && view == old(view) && buffer == Slice(old(view), loc, count)
    {
      ghost var v := view;
      buffer := [];
      var progress := 0;
      while progress < count
        invariant Valid() && view == v && Settled(old(disk), v, disk)
        invariant 0 <= progress <= count && Fits(Reach(), loc, progress)
        invariant buffer == Slice(v, loc, progress)
      {
        var chunk;
        ok, chunk := ReadNext(loc, progress, count - progress, old(disk), v);
        if !ok {
          return;
        }
        SliceAppend(v, loc, progress, |chunk|);
        buffer := buffer + chunk;
        progress := progress + |chunk|;
      }
      ok := true;
    }

    /** One turn of the read loop behind the first `progress` bytes. */
    method ReadNext(loc: nat, progress: nat, want: nat, ghost d: seq<Byte>, ghost v: seq<Byte>)
      returns (ok: bool, chunk: seq<Byte>)
      requires Valid() && view == v && loc < TWO_64 && progress + want < TWO_64 && want > 0 &&
        Fits(Reach(), loc, progress)
      requires |d| == |v| && Settled(d, v, disk)
      modifies this`disk, this`dirty, this`view, this`cachedBlock, cache
      ensures Usable() && Settled(d, v, disk)
      ensures ok <==> loc + progress < Reach()
      ensures ok ==> Valid() && view == v && 0 < |chunk| <= want && Fits(Reach(), loc, progress + |chunk|)
      ensures ok ==> Fits(|v|, loc + progress, |chunk|) && chunk == Slice(v, loc + progress, |chunk|)
    {
      ok, chunk := ReadChunk(Add64(loc, progress), want);
    }

    /** `memcpy` into the cached block, which becomes dirty. */
    method PokeCache(offset: nat, chunk: seq<Byte>)
      requires Usable() && cachedBlock < blocks && offset + |chunk| <= blockSize
      modifies this`dirty, this`view, cache
      ensures Valid() && dirty
      ensures view == Overwrite(old(view), CacheAt() + offset, chunk)
    {
      ghost var was := cache[..];
      forall i | 0 <= i < |chunk| { cache[offset + i] := chunk[i]; }
      dirty := true;
      view := Overwrite(view, CacheAt() + offset, chunk);
      assert cache[..] == Overwrite(was, offset, chunk);
      OverwriteWithin(disk, CacheAt(), was, offset, chunk);
    }

    /** One turn of the write loop: cache the block of `pos` and put into it as much of `data` as fits. */
    method WriteChunk(pos: nat, data: seq<Byte>) returns (ok: bool, n: nat)
      requires Usable() && pos < TWO_64 && data != []
      modifies this`disk, this`dirty, this`view, this`cachedBlock, cache
      ensures Usable() && |disk| == old(|disk|)
      ensures ok <==> pos < Reach()
      ensures ok ==> 0 < n <= |data| && pos + n <= Reach()
      ensures old(Valid()) ==> disk == old(disk) || disk == old(view)
      ensures old(Valid()) && ok ==> Valid() && view == Overwrite(old(view), pos, data[..n])
    {
      var block, offset := BlockOf(pos);
      ok := CacheBlock(block);
      n := 0;
      if ok {
        n := if |data| > blockSize - offset then blockSize - offset else |data|;
        assert CacheAt() + offset == pos;
        PokeCache(offset, data[..n]);
      }
    }

    /** The writing half of `_device_write`, which is all of it during an uninstall. */
    method WriteThrough(data: seq<Byte>, loc: nat) returns (ok: bool)
      requires Usable() && loc < TWO_64 && |data| < TWO_64
      modifies this`disk, this`dirty, this`view, this`cachedBlock, cache
      ensures Usable() && |disk| == old(|disk|)
      ensures ok <==> Fits(Reach(), loc, |data|)
      ensures old(Valid()) ==> SettledOutside(old(disk), old(view), disk, loc, loc + |data|)
      ensures old(Valid()) && ok ==> Valid() && view == Overwrite(old(view), loc, data)
    {
      ghost var v, coherent := view, Valid();
      var progress := 0;
      while progress < |data|
        invariant Usable() && |disk| == |v| && 0 <= progress <= |data| && Fits(Reach(), loc, progress)
        invariant coherent ==> SettledOutside(old(disk), v, disk, loc, loc + |data|)
        invariant coherent ==> Valid() && view == Overwrite(v, loc, data[..progress])
      {
        ok, progress := WriteNext(data, loc, progress, old(disk), v, coherent);
        if !ok {
          return;
        }
      }
      assert data[..progress] == data;
      ok := true;
    }

    /** One turn of the write loop, which has put `progress` bytes in place. */
    method WriteNext(data: seq<Byte>, loc: nat, progress: nat, ghost d: seq<Byte>, ghost v: seq<Byte>,
                     ghost coherent: bool)
      returns (ok: bool, next: nat)
      requires Usable() && |disk| == |v| == |d| && progress < |data| < TWO_64 && loc < TWO_64 &&
        Fits(Reach(), loc, progress)
      requires coherent ==>
        SettledOutside(d, v, disk, loc, loc + |data|) && Valid() && view == Overwrite(v, loc, data[..progress])
      modifies this`disk, this`dirty, this`view, this`cachedBlock, cache
      ensures Usable() && |disk| == |v| && (coherent ==> SettledOutside(d, v, disk, loc, loc + |data|))
      ensures if ok then progress < next <= |data| && Fits(Reach(), loc, next) else loc + progress >= Reach()
      ensures coherent && ok ==> Valid() && view == Overwrite(v, loc, data[..next])
    {
      var n;
      ok, n := WriteChunk(Add64(loc, progress), data[progress..]);
      next := progress + n;
      if ok {
        OverwriteAppend(v, loc, data[..progress], data[progress..][..n]);
        assert data[..next] == data[..progress] + data[progress..][..n];
      }
    }

    /** The saving half of `_device_write`: the old bytes go into the next free log slot. */
    method SaveOld(loc: nat, count: nat) returns (ok: bool)
      requires Valid() && undo.Valid() && loc < TWO_64 && count < TWO_64
      modifies this`disk, this`dirty, this`view, this`cachedBlock, cache, undo.entries
      ensures Usable() && Settled(old(disk), old(view), disk) && undo.Log() == old(undo.Log())
      ensures ok <==> Fits(Reach(), loc, count) && undo.count < UNINSTALL_DATA_MAX
      ensures ok ==> Valid() && view == old(view)
      ensures ok ==> undo.entries[undo.count] == UndoEntry(loc, Slice(view, loc, count))
    {
      if undo.count >= UNINSTALL_DATA_MAX {
        return false;
      }
      var saved;
      ok, saved := DeviceRead(loc, count);
      if ok {
        undo.Fill(UndoEntry(loc, saved));
      }
    }

    method DeviceWrite(data: seq<Byte>, loc: nat) returns (ok: bool)
      requires Usable() && undo.Valid() && loc < TWO_64 && |data| < TWO_64
      requires undo.uninstalling || Valid()
      modifies this`disk, this`dirty, this`view, this`cachedBlock, cache, undo`count, undo.entries
      ensures Usable() && undo.Valid() && |disk| == old(|disk|)
      ensures ok <==> Fits(Reach(), loc, |data|) && (undo.uninstalling || old(undo.count) < UNINSTALL_DATA_MAX)
      ensures old(Valid()) && ok ==> Valid() && view == Overwrite(old(view), loc, data)
      ensures old(Valid()) && (ok || undo.uninstalling) ==>
        SettledOutside(old(disk), old(view), disk, loc, loc + |data|)
      ensures !ok && !undo.uninstalling ==> Settled(old(disk), old(view), disk)
      ensures undo.Log() == if ok && !undo.uninstalling
        then old(undo.Log()) + [UndoEntry(loc, Slice(old(view), loc, |data|))]
                            else old(undo.Log())
    {
      ghost var wasDisk, wasView := disk, view;
      if !undo.uninstalling {
        ok := SaveOld(loc, |data|);
        if !ok {
          return;
        }
      }
      ghost var mid := disk;
      ok := WriteThrough(data, loc);
      if ok && !undo.uninstalling {
        SettledThen(wasDisk, wasView, mid, disk, loc, loc + |data|);
        undo.Commit();
      }
    }

    /** Forgets the cached block, dirty or not. */
    method DiscardCache()
      requires Shaped()
      modifies this`dirty, this`cachedBlock, this`view
      ensures Valid() && view == disk
    {
      if NO_BLOCK < blocks {
        BlockBounds(NO_BLOCK);
        MultipleIsProduct(blockSize, NO_BLOCK);
        assert false;
      }
      dirty := false;
      cachedBlock := NO_BLOCK;
      view := disk;
    }

    /** One entry of the uninstall loop, with its single retry. */
    method RestoreEntry(e: UndoEntry) returns (ok: bool)
      requires Usable() && undo.Valid() && undo.uninstalling && e.loc < TWO_64 && |e.data| < TWO_64
      modifies this`disk, this`dirty, this`view, this`cachedBlock, cache, undo`count, undo.entries
      ensures Usable() && undo.Valid() && |disk| == old(|disk|) && undo.Log() == old(undo.Log())
      ensures ok <==> Fits(Reach(), e.loc, |e.data|)
      ensures old(Valid()) && ok ==> Valid() && view == Overwrite(old(view), e.loc, e.data)
    {
      ok := DeviceWrite(e.data, e.loc);
      var retry := false;
      while !ok
        invariant Usable() && undo.Valid() && |disk| == old(|disk|) && undo.Log() == old(undo.Log())
        invariant ok <==> Fits(Reach(), e.loc, |e.data|)
        invariant old(Valid()) && ok ==> Valid() && view == Overwrite(old(view), e.loc, e.data)
        decreases !retry
      {
        if retry {
          break;
        }
        FlushCache();
        DiscardCache();
        retry := true;
        ok := DeviceWrite(e.data, e.loc);
      }
    }

    /** Replays the log over the device as it is, without the cached block. */
    method Uninstall() returns (ok: bool)
      requires Shaped() && undo.Valid() && WordSized(undo.Log())
      modifies this`disk, this`dirty, this`view, this`cachedBlock, cache, undo`count, undo`uninstalling, undo.entries
      ensures Usable() && undo.Valid() && |disk| == old(|disk|) && undo.Log() == old(undo.Log())
      ensures ok <==> AllFit(Reach(), undo.Log())
      ensures ok ==> AllFit(|old(disk)|, undo.Log()) && disk == Replay(old(disk), undo.Log())
    {
      ghost var log := undo.Log();
      undo.uninstalling := true;
      DiscardCache();
      ok := true;
      ghost var done := [];
      for i := 0 to undo.count
        invariant Usable() && undo.Valid() && undo.uninstalling && undo.Log() == log && |disk| == old(|disk|)
        invariant done == log[..i] && (ok <==> AllFit(Reach(), done))
        invariant ok ==> AllFit(|disk|, done) && Valid() && view == Replay(old(disk), done)
      {
        assert undo.entries[i] == log[i];
        var restored := RestoreEntry(undo.entries[i]);
        ReplayNext(Reach(), |disk|, old(disk), done, log[i]);
        done := done + [log[i]];
        ok := ok && restored;
      }
      assert done == log;
      FlushCache();
    }
  }

  lemma ReplayNext(reach: nat, size: nat, disk: seq<Byte>, done: seq<UndoEntry>, e: UndoEntry)
    requires |disk| == size && reach <= size
    ensures AllFit(reach, done + [e]) <==> AllFit(reach, done) && Fits(reach, e.loc, |e.data|)
    ensures AllFit(size, done) && Fits(reach, e.loc, |e.data|) ==> AllFit(size, done + [e])
    ensures AllFit(size, done) && Fits(reach, e.loc, |e.data|) ==>
      Replay(disk, done + [e]) == Overwrite(Replay(disk, done), e.loc, e.data)
  {
    AllFitAppend(reach, done, e);
    AllFitAppend(size, done, e);
    if AllFit(size, done) && Fits(reach, e.loc, |e.data|) {
      ReplayAppend(disk, done, e);
    }
  }
}
