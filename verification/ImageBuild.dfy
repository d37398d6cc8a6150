/** mkdiosfs: builds the image by creating directories and files and writing files. */
module ImageBuild {
  import opened Prelude
  import opened Bytes
  import opened Bitmap
  import opened ImageTree

  /** Only blocks that were free or belonged to `n` change, and they end up free or with `n`. */
  ghost predicate OnlyFor(n: nat, blocks: seq<Content>, blocks': seq<Content>, owner: seq<Owner>, owner': seq<Owner>)
  {
    && |owner| == |blocks| == |owner'| == |blocks'|
    && forall b | 0 <= b < |owner| ::
         if owner[b].Free? || owner[b].inode == n then owner'[b].Free? || owner'[b].inode == n
         else owner'[b] == owner[b] && blocks'[b] == blocks[b]
  }

  lemma OnlyForThen(n: nat, b0: seq<Content>, b1: seq<Content>, b2: seq<Content>, o0: seq<Owner>, o1: seq<Owner>,
                    o2: seq<Owner>)
    requires OnlyFor(n, b0, b1, o0, o1) && OnlyFor(n, b1, b2, o1, o2)
    ensures OnlyFor(n, b0, b2, o0, o2)
  {
  }

  lemma OwnersStay(n: nat, objects: nat, blocks: seq<Content>, blocks': seq<Content>, owner: seq<Owner>,
                   owner': seq<Owner>)
    requires OnlyFor(n, blocks, blocks', owner, owner') && 0 < n < objects && RootFirst(owner)
    requires forall b | 0 <= b < |owner| && !owner[b].Free? :: owner[b].inode < objects
    ensures RootFirst(owner') && forall b | 0 <= b < |owner'| && !owner'[b].Free? :: owner'[b].inode < objects
  {
  }

  // ------------------------------------------------------------------ appending a directory entry

  /** The blocks of a directory after an entry went into block `b`, new or its last. */
  ghost predicate Appended(d: nat, inode: Inode, inode': Inode, blocks: seq<Content>, blocks': seq<Content>,
                           owner: seq<Owner>, owner': seq<Owner>, b: nat, entry: Dirent)
  {
    && |owner| == |blocks| && b < |blocks| && |inode.direct| == DIRECT && inode.size < MAX_CHILDREN
    && blocks' == blocks[b := Entries(AsEntries(blocks[b])[inode.size % 7 := entry])]
    && (if inode.size % 7 == 0
        then owner[b].Free? && inode.count < DIRECT && owner' == owner[b := Slot(d, inode.count)]
             && inode' == inode.(direct := inode.direct[inode.size / 7 := b], count := inode.count + 1,
                  size := inode.size + 1)
        else owner' == owner && b == inode.direct[inode.size / 7] && inode' == inode.(size := inode.size + 1))
  }

  lemma AppendOwns(t: seq<Object>, d: nat, inodes: seq<Inode>, inode': Inode, blocks: seq<Content>,
                   blocks': seq<Content>,
                   owner: seq<Owner>, owner': seq<Owner>, b: nat, entry: Dirent)
    requires Holds(t, d, inodes, blocks, owner) && t[d].kind == Directory
    requires Appended(d, inodes[d], inode', blocks, blocks', owner, owner', b, entry)
    ensures Sound(inode', blocks') && MetaOf(inode') == {} && OwnsList(d, BlockList(inode', blocks'), {}, owner')
    ensures inode'.size / 7 <= inode'.count && inodes[d].size / 7 < inode'.count <= DIRECT &&
      BlockList(inode', blocks')[inodes[d].size / 7] == b
    ensures inodes[d].count <= inode'.count && forall j | 0 <= j < inodes[d].count ::
      BlockList(inode', blocks')[j] == BlockList(inodes[d], blocks)[j]
    ensures OnlyFor(d, blocks, blocks', owner, owner')
  {
    var inode := inodes[d];
    var list := BlockList(inode, blocks);
    if inode.size % 7 == 0 {
      assert inode.size / 7 == inode.count;
      OwnsNext(d, list, {}, owner, b);
      assert BlockList(inode', blocks') == list + [b];
    } else {
      assert BlockList(inode', blocks') == list;
    }
  }

  /** The directory holds its children and the new one. */
  lemma AppendHolds(t: seq<Object>, s: Step, d: nat, inodes: seq<Inode>, inodes': seq<Inode>, blocks: seq<Content>,
                    blocks': seq<Content>,
                    owner: seq<Owner>, owner': seq<Owner>, b: nat)
    requires s.Create? && Allowed(t, s) && s.parent == d && Holds(t, d, inodes, blocks, owner) && |inodes'| == |inodes|
    requires Appended(d, inodes[d], inodes'[d], blocks, blocks', owner, owner', b, DirentOf(Apply(t, s), |t|))
    requires forall i | 0 <= i < |t[d].children| :: t[d].children[i] < |t|
    ensures Holds(Apply(t, s), d, inodes', blocks', owner') && OnlyFor(d, blocks, blocks', owner, owner')
  {
    var u, inode, inode' := Apply(t, s), inodes[d], inodes'[d];
    AppendOwns(t, d, inodes, inode', blocks, blocks', owner, owner', b, DirentOf(u, |t|));
    var list, list' := BlockList(inode, blocks), BlockList(inode', blocks');
    assert u[d] == t[d].(children := t[d].children + [|t|]);
    forall j | 0 <= j < |list'| ensures list'[j] < |blocks'| && blocks'[list'[j]].Entries? {
      if list'[j] != b { assert j < |list|; }
    }
    forall j, e | 0 <= j < |list'| && 0 <= e < 7 && 7 * j + e < |u[d].children|
      ensures SlotHolds(u, u[d], blocks'[list'[j]], j, e)
    {
      if 7 * j + e == inode.size {
        assert j == inode.size / 7 && e == inode.size % 7;
      } else {
        assert SlotHolds(t, t[d], blocks[list[j]], j, e);
        if list'[j] == b { assert j == inode.size / 7; }
      }
    }
  }

  /** The blocks after slot `e` of block `b` took over name, size and parent from `inode`. */
  function Refreshed(blocks: seq<Content>, b: nat, e: nat, inode: Inode): seq<Content>
    requires b < |blocks| && e < 7
  {
    var slots := AsEntries(blocks[b]);
    blocks[b := Entries(slots[e := slots[e].(name := inode.name, size := inode.size, parent := inode.parent)])]
  }

  /** `f` is inode `n`, grown from `file` to hold `bytes`. */
  ghost predicate Filled(file: Inode, f: Inode, n: nat, blocks: seq<Content>, owner: seq<Owner>, bytes: seq<Byte>)
  {
    && Sound(f, blocks) && f.count == |bytes| / 1024 + 1 && f.size == |bytes|
    && f.kind == file.kind && f.name == file.name && f.parent == file.parent
    && OwnsList(n, BlockList(f, blocks), MetaOf(f), owner)
    && forall j | 0 <= j < f.count ::
         BlockList(f, blocks)[j] < |blocks| && HasChunk(blocks[BlockList(f, blocks)[j]], bytes, j)
  }

  lemma ResizedIsFilled(file: Inode, f: Inode, n: nat, blocks: seq<Content>, owner: seq<Owner>, bytes: seq<Byte>)
    requires Sound(f, blocks) && f.count == |bytes| / 1024 + 1 && |owner| == |blocks|
    requires f.kind == file.kind && f.name == file.name && f.parent == file.parent &&
      OwnsList(n, BlockList(f, blocks), MetaOf(f), owner)
    requires forall j | 0 <= j < f.count ::
      BlockList(f, blocks)[j] < |blocks| && HasChunk(blocks[BlockList(f, blocks)[j]], bytes, j)
    ensures Filled(file, f.(size := |bytes|), n, blocks, owner, bytes)
  {
    assert BlockList(f.(size := |bytes|), blocks) == BlockList(f, blocks);
  }

  /** The level at which an append to a file of `size` bytes starts: 0 for the direct one, 1 for the next. */
  function StartLevel(size: nat): nat
  {
    var block := if size % 1024 == 0 then size / 1024 else size / 1024 + 1;
    if block < DIRECT then 0 else 1
  }

  /** The size grows by what the write adds. */
  function Resized(f: Inode, written: nat): (g: Inode)
    ensures g == f.(size := if f.size < written then written else f.size)
  {
    if written > f.size then f.(size := f.size + (written - f.size)) else f
  }

  /** Inode `n` has the blocks for a write of `data` over `was`, which they still hold. */
  ghost predicate Ready(n: nat, f: Inode, data: seq<Byte>, was: seq<Byte>, blocks: seq<Content>, owner: seq<Owner>)
  {
    && |owner| == |blocks| && Sound(f, blocks) && OwnsList(n, BlockList(f, blocks), MetaOf(f), owner)
    && f.count == |Overlaid(was, data)| / 1024 + 1
    && (forall j | 0 <= j < f.count ::
         BlockList(f, blocks)[j] < |blocks| && Chunk(was, j) <= AsBytes(blocks[BlockList(f, blocks)[j]]))
    && (forall j | 0 <= j < f.count && |data| / 1024 < j :: HasChunk(blocks[BlockList(f, blocks)[j]], was, j))
  }

  lemma HeldIsReady(t: seq<Object>, n: nat, inodes: seq<Inode>, blocks: seq<Content>, owner: seq<Owner>)
    requires Holds(t, n, inodes, blocks, owner) && t[n].kind == Regular && t[n].written
    ensures Ready(n, inodes[n], [], t[n].bytes, blocks, owner)
  {
    assert Overlaid(t[n].bytes, []) == t[n].bytes;
  }

  lemma FirstIsReady(n: nat, f: Inode, b: nat, blocks: seq<Content>, owner: seq<Owner>)
    requires |owner| == |blocks| && b < |blocks| && Sound(f, blocks) && f.count == 1 && f.direct[0] == b &&
      OwnsList(n, [] + [b], {}, owner)
    ensures Ready(n, f, [], [], blocks, owner)
  {
    assert BlockList(f, blocks) == [] + [b];
  }

  /** More blocks behind those that hold `was`. */
  lemma ReadyExtends(n: nat, file: Inode, f: Inode, data: seq<Byte>, was: seq<Byte>, start: seq<Content>,
                     blocks: seq<Content>, owner: seq<Owner>, owner': seq<Owner>)
    requires Ready(n, file, [], was, start, owner) && |owner'| == |blocks| == |start|
    requires Sound(f, blocks) && OwnsList(n, BlockList(f, blocks), MetaOf(f), owner')
    requires f.count == |Overlaid(was, data)| / 1024 + 1 && file.count == |was| / 1024 + 1 <= f.count
    requires forall j | 0 <= j < file.count :: BlockList(f, blocks)[j] == BlockList(file, start)[j]
    requires Kept(start, blocks, owner)
    ensures Ready(n, f, data, was, blocks, owner')
  {
    var list := BlockList(f, blocks);
    forall j | 0 <= j < f.count ensures list[j] < |blocks| && Chunk(was, j) <= AsBytes(blocks[list[j]]) {
      if j >= file.count {
        assert Chunk(was, j) == [];
      } else {
        assert blocks[list[j]] == start[BlockList(file, start)[j]];
      }
    }
  }

  /** The inode table and the blocks hold the tree, and nothing else is in use. */
  ghost predicate HoldsTree(t: seq<Object>, inodes: seq<Inode>, blocks: seq<Content>, owner: seq<Owner>)
  {
    && WellFormed(t) && |t| > 0 && t[0].kind == Directory
    && (forall n | 0 <= n < |t| :: Holds(t, n, inodes, blocks, owner))
    && (forall b | 0 <= b < |owner| && !owner[b].Free? :: owner[b].inode < |t|)
    && (|t| > 1 ==> RootFirst(owner))
  }

  /** Block 0 is the first block of the root directory. */
  predicate RootFirst(owner: seq<Owner>)
  {
    |owner| > 0 && owner[0] == Slot(0, 0)
  }

  /** Blocks that were in use keep their contents. */
  ghost predicate Kept(blocks: seq<Content>, blocks': seq<Content>, owner: seq<Owner>)
  {
    |owner| == |blocks| == |blocks'| && forall b | 0 <= b < |owner| && !owner[b].Free? :: blocks'[b] == blocks[b]
  }

  /** Writing block `i` of a file leaves its other blocks alone. */
  lemma ChunksStay(blocks: seq<Content>, blocks': seq<Content>, start: seq<Content>, list: seq<nat>, bytes: seq<Byte>,
                   i: nat)
    requires i < |list| && |blocks'| == |blocks| == |start| && forall j | 0 <= j < |list| :: list[j] < |blocks|
    requires forall j, k | 0 <= j < k < |list| :: list[j] != list[k]
    requires blocks' == blocks[list[i] := blocks'[list[i]]] && HasChunk(blocks'[list[i]], bytes, i)
    requires forall j | 0 <= j < i :: HasChunk(blocks[list[j]], bytes, j)
    requires forall j | i <= j < |list| :: blocks[list[j]] == start[list[j]]
    ensures forall j | 0 <= j < i + 1 :: HasChunk(blocks'[list[j]], bytes, j)
    ensures forall j | i + 1 <= j < |list| :: blocks'[list[j]] == start[list[j]]
  {
    assert forall j | 0 <= j < |list| && j != i :: blocks'[list[j]] == blocks[list[j]];
  }

  lemma IsListed(t: seq<Object>, n: nat) returns (k: nat)
    requires WellFormed(t) && 0 < n < |t|
    ensures ChildAt(t, t[n].parent, k) && t[t[n].parent].children[k] == n
  {
    assert Listed(t, n);
    k :| 0 <= k < |t[t[n].parent].children| && t[t[n].parent].children[k] == n;
    assert ChildAt(t, t[n].parent, k);
  }

  /** Filling a file leaves the other objects as they were, in the tree before the write. */
  lemma FileWritten(t: seq<Object>, n: nat, data: seq<Byte>, inodes: seq<Inode>, inodes': seq<Inode>,
                    blocks: seq<Content>, blocks': seq<Content>,
                    owner: seq<Owner>, owner': seq<Owner>)
    requires WellFormed(t) && forall m | 0 <= m < |t| :: Holds(t, m, inodes, blocks, owner)
    requires n < |inodes'| == |inodes| && (forall m | 0 <= m < |inodes| && m != n :: inodes'[m] == inodes[m]) &&
      OnlyFor(n, blocks, blocks', owner, owner')
    ensures forall m | 0 <= m < |t| && m != n :: Holds(t, m, inodes', blocks', owner')
  {
    ChildrenInTree(t);
    forall m | 0 <= m < |t| && m != n ensures Holds(t, m, inodes', blocks', owner') {
      OthersHold(t, t, m, inodes, inodes', blocks, blocks', owner, owner', n);
    }
  }

  lemma EntryBlock(t: seq<Object>, d: nat, inodes: seq<Inode>, blocks: seq<Content>, owner: seq<Owner>, k: nat)
    requires Holds(t, d, inodes, blocks, owner) && t[d].kind == Directory && k < |t[d].children|
    ensures k / 7 < DIRECT && inodes[d].direct[k / 7] < |blocks| && owner[inodes[d].direct[k / 7]] == Slot(d, k / 7)
  {
    assert BlockList(inodes[d], blocks)[k / 7] == inodes[d].direct[k / 7];
  }

  lemma ParentHolds(t: seq<Object>, n: nat, data: seq<Byte>, inodes: seq<Inode>, blocks: seq<Content>,
                    blocks': seq<Content>, owner: seq<Owner>, k: nat)
    requires WellFormed(t) && Allowed(t, Write(n, data)) && n < |inodes| && ChildAt(t, t[n].parent, k) &&
      t[t[n].parent].children[k] == n
    requires Holds(t, t[n].parent, inodes, blocks, owner) && t[t[n].parent].kind == Directory
    requires inodes[n].name == t[n].name && inodes[n].parent == t[n].parent &&
      inodes[n].size == |Apply(t, Write(n, data))[n].bytes|
    requires k / 7 < DIRECT && inodes[t[n].parent].direct[k / 7] < |blocks|
    requires blocks' == Refreshed(blocks, inodes[t[n].parent].direct[k / 7], k % 7, inodes[n])
    ensures Holds(Apply(t, Write(n, data)), t[n].parent, inodes, blocks', owner)
  {
    var u, d := Apply(t, Write(n, data)), t[n].parent;
    var list, b := BlockList(inodes[d], blocks), inodes[d].direct[k / 7];
    assert k / 7 < |list| && list[k / 7] == b;
    assert BlockList(inodes[d], blocks') == list;
    forall j, e | 0 <= j < |list| && 0 <= e < 7 && 7 * j + e < |u[d].children|
      ensures SlotHolds(u, u[d], blocks'[list[j]], j, e)
    {
      assert SlotHolds(t, t[d], blocks[list[j]], j, e);
      if list[j] == b {
        assert j == k / 7;
      }
      if 7 * j + e != k {
        assert t[d].children[7 * j + e] != n;
      }
    }
  }

  lemma SelfHolds(t: seq<Object>, n: nat, data: seq<Byte>, inodes: seq<Inode>, blocks: seq<Content>,
                  blocks': seq<Content>, owner: seq<Owner>, b: nat)
    requires Allowed(t, Write(n, data)) && n < |inodes| && |owner| == |blocks| && t[n].children == []
    requires inodes[n].kind == t[n].kind && inodes[n].name == t[n].name && inodes[n].parent == t[n].parent
    requires Filled(inodes[n], inodes[n], n, blocks, owner, Apply(t, Write(n, data))[n].bytes)
    requires b < |blocks| && !OwnedBy(owner[b], n) && |blocks'| == |blocks| && forall i | 0 <= i < |blocks| && i != b ::
      blocks'[i] == blocks[i]
    ensures Holds(Apply(t, Write(n, data)), n, inodes, blocks', owner)
  {
    var u := Apply(t, Write(n, data));
    assert Holds(u, n, inodes, blocks, owner);
    Untouched(u, u, n, inodes, inodes, blocks, blocks', owner, owner);
  }

  /** With the entry brought up to date, the image holds the tree after the write. */
  lemma EntryWritten(t: seq<Object>, n: nat, data: seq<Byte>, inodes: seq<Inode>, blocks: seq<Content>,
                     blocks': seq<Content>, owner: seq<Owner>, k: nat)
    requires WellFormed(t) && Allowed(t, Write(n, data)) && n < |inodes| && ChildAt(t, t[n].parent, k) &&
      t[t[n].parent].children[k] == n
    requires forall m | 0 <= m < |t| && m != n :: Holds(t, m, inodes, blocks, owner)
    requires |owner| == |blocks| && inodes[n].kind == t[n].kind && inodes[n].name == t[n].name &&
      inodes[n].parent == t[n].parent
    requires Filled(inodes[n], inodes[n], n, blocks, owner, Apply(t, Write(n, data))[n].bytes)
    requires t[n].parent < |inodes| && |inodes[t[n].parent].direct| == DIRECT && k / 7 < DIRECT &&
      inodes[t[n].parent].direct[k / 7] < |blocks|
    requires blocks' == Refreshed(blocks, inodes[t[n].parent].direct[k / 7], k % 7, inodes[n])
    ensures forall m | 0 <= m < |t| :: Holds(Apply(t, Write(n, data)), m, inodes, blocks', owner)
  {
    var u, d := Apply(t, Write(n, data)), t[n].parent;
    var b := inodes[d].direct[k / 7];
    assert Shaped(t[d]) && Shaped(t[n]);
    assert Holds(t, d, inodes, blocks, owner);
    EntryBlock(t, d, inodes, blocks, owner, k);
    ParentHolds(t, n, data, inodes, blocks, blocks', owner, k);
    SelfHolds(t, n, data, inodes, blocks, blocks', owner, b);
    BystandersHold(t, u, n, inodes, blocks, blocks', owner, b);
  }

  lemma ChildrenInTree(t: seq<Object>)
    requires WellFormed(t)
    ensures forall d, i | 0 <= d < |t| && 0 <= i < |t[d].children| :: t[d].children[i] < |t|
  {
    forall d, i | 0 <= d < |t| && 0 <= i < |t[d].children| ensures t[d].children[i] < |t| {
      assert ChildAt(t, d, i);
    }
  }

  /** The objects that are neither the written file nor its directory. */
  lemma BystandersHold(t: seq<Object>, u: seq<Object>, n: nat, inodes: seq<Inode>, blocks: seq<Content>,
                       blocks': seq<Content>, owner: seq<Owner>, b: nat)
    requires WellFormed(t) && n < |t| == |u| && forall m | 0 <= m < |t| && m != n :: Holds(t, m, inodes, blocks, owner)
    requires forall i | 0 <= i < |t| && i != n :: u[i] == t[i]
    requires b < |blocks| == |blocks'| == |owner| && OwnedBy(owner[b], t[n].parent) &&
      forall i | 0 <= i < |blocks| && i != b :: blocks'[i] == blocks[i]
    ensures forall m | 0 <= m < |t| && m != n && m != t[n].parent :: Holds(u, m, inodes, blocks', owner)
  {
    assert OnlyFor(t[n].parent, blocks, blocks', owner, owner);
    forall m | 0 <= m < |t| && m != n && m != t[n].parent ensures Holds(u, m, inodes, blocks', owner) {
      forall i | 0 <= i < |t[m].children| ensures t[m].children[i] < |t| && t[m].children[i] != n {
        assert ChildAt(t, m, i);
      }
      OthersHold(t, u, m, inodes, inodes, blocks, blocks', owner, owner, t[n].parent);
    }
  }

  // ------------------------------------------------------------------ writing, whether or not it goes well

  /** What reading a block finds if the block was written in another form: as numbers, as bytes, and in the search for
      a directory entry, which then ends in some block or not at all. */
  datatype Junk = Junk(numbers: seq<nat>, bytes: seq<Byte>, found: Option<Stray>)
  datatype Stray = Stray(block: nat, slots: seq<Dirent>)

  predicate Plausible(junk: Junk, blocks: nat)
  {
    |junk.numbers| == POINTERS && |junk.bytes| == 1024 &&
      (junk.found.Some? ==> junk.found.value.block < blocks && |junk.found.value.slots| == 7)
  }

  function NumbersIn(c: Content, junk: Junk): seq<nat>
  {
    if c.Entries? || c.Data? then junk.numbers else AsPointers(c)
  }

  function BytesIn(c: Content, junk: Junk): seq<Byte>
  {
    if c.Entries? || c.Pointers? then junk.bytes else AsBytes(c)
  }

  /** Blocks in use stay with their owner. */
  ghost predicate Adds(was: seq<Owner>, now: seq<Owner>)
  {
    |now| == |was| && forall b | 0 <= b < |was| && !was[b].Free? :: now[b] == was[b]
  }

  /** The other inodes are as they were. */
  ghost predicate SparesOthers(was: seq<Inode>, now: seq<Inode>, n: nat)
  {
    |now| == |was| && forall m | 0 <= m < |was| && m != n :: now[m] == was[m]
  }

  /** Every block that the inode lists is in use as a listed block, of this inode or another; its indirection block is
      in use as one. */
  ghost predicate Linked(f: Inode, blocks: seq<Content>, owner: seq<Owner>)
  {
    && |f.direct| == DIRECT && f.count <= MAX_BLOCKS && |owner| == |blocks|
    && (f.count > DIRECT ==> f.single < |blocks| && owner[f.single].Meta? && blocks[f.single].Pointers?)
    && forall j | 0 <= j < f.count :: LinkedAt(f, blocks, owner, j)
  }

  ghost predicate LinkedAt(f: Inode, blocks: seq<Content>, owner: seq<Owner>, j: nat)
    requires |f.direct| == DIRECT && (j >= DIRECT ==> f.single < |blocks|) && |owner| == |blocks|
  {
    RelativeBlock(f, blocks, j) < |blocks| && owner[RelativeBlock(f, blocks, j)].Slot?
  }

  lemma OwnedIsLinked(n: nat, f: Inode, blocks: seq<Content>, owner: seq<Owner>)
    requires Sound(f, blocks) && |owner| == |blocks| && OwnsList(n, BlockList(f, blocks), MetaOf(f), owner)
    ensures Linked(f, blocks, owner)
  {
    assert f.count > DIRECT ==> f.single in MetaOf(f);
    forall j | 0 <= j < f.count ensures LinkedAt(f, blocks, owner, j) {
      RelativeBlockIsListed(f, blocks, j);
    }
  }

  lemma LinkedStays(f: Inode, blocks: seq<Content>, owner: seq<Owner>, owner': seq<Owner>)
    requires Linked(f, blocks, owner) && Adds(owner, owner')
    ensures Linked(f, blocks, owner')
  {
    forall j | 0 <= j < f.count ensures LinkedAt(f, blocks, owner', j) {
      assert LinkedAt(f, blocks, owner, j);
    }
  }

  /** One more direct block. */
  lemma LinkedNext(f: Inode, blocks: seq<Content>, owner: seq<Owner>, b: nat)
    requires Linked(f, blocks, owner) && f.count < DIRECT && b < |blocks| && owner[b].Slot?
    ensures Linked(f.(direct := f.direct[f.count := b], count := f.count + 1), blocks, owner)
  {
    var g := f.(direct := f.direct[f.count := b], count := f.count + 1);
    forall j | 0 <= j < g.count ensures LinkedAt(g, blocks, owner, j) {
      assert j < f.count ==> LinkedAt(f, blocks, owner, j);
    }
  }

  /** A new first block in an inode with at most one block. */
  lemma LinkedFirstAgain(f: Inode, blocks: seq<Content>, owner: seq<Owner>, b: nat)
    requires Linked(f, blocks, owner) && f.count <= 1 && b < |blocks| && owner[b].Slot?
    requires RootFirst(owner) && forall j | f.count <= j < DIRECT :: f.direct[j] == 0
    ensures Linked(f.(direct := f.direct[0 := b], count := f.count + 1), blocks, owner)
  {
    var g := f.(direct := f.direct[0 := b], count := f.count + 1);
    forall j | 0 <= j < g.count ensures LinkedAt(g, blocks, owner, j) {
    }
  }

  /** The first indirection block, with `count` numbers. */
  lemma LinkedFirst(f: Inode, blocks: seq<Content>, owner: seq<Owner>, s: nat, numbers: seq<nat>, count: nat)
    requires Linked(f, blocks, owner) && f.count == DIRECT && s < |blocks| && owner[s].Meta? && |numbers| == POINTERS &&
      count <= POINTERS
    requires forall i | 0 <= i < count :: numbers[i] < |blocks| && owner[numbers[i]].Slot?
    ensures Linked(f.(single := s, count := DIRECT + count), blocks[s := Pointers(numbers)], owner)
  {
    var g, after := f.(single := s, count := DIRECT + count), blocks[s := Pointers(numbers)];
    forall j | 0 <= j < g.count ensures LinkedAt(g, after, owner, j) {
      if j < DIRECT { assert LinkedAt(f, blocks, owner, j); }
    }
  }

  /** More blocks without more numbers: all of them are block 0. */
  lemma LinkedAgain(f: Inode, blocks: seq<Content>, owner: seq<Owner>, numbers: seq<nat>, count: nat)
    requires Linked(f, blocks, owner) && f.count > DIRECT && RootFirst(owner) && f.count + count <= MAX_BLOCKS
    requires NoneBehind(AsPointers(blocks[f.single]), f.count - DIRECT)
    ensures f.single != 0 && Linked(f.(count := f.count + count), blocks[0 := Pointers(numbers)], owner)
  {
    var g, after := f.(count := f.count + count), blocks[0 := Pointers(numbers)];
    forall j | 0 <= j < g.count ensures LinkedAt(g, after, owner, j) {
      if j < f.count {
        assert LinkedAt(f, blocks, owner, j);
      } else {
        assert AsPointers(blocks[f.single])[(j - DIRECT) % POINTERS] == 0;
      }
    }
  }

  /** The numbers of `count` more blocks are in block `s`: the inode's indirection block if that is new, and else
      block 0. */
  lemma LinkedFilled(f: Inode, blocks: seq<Content>, was: seq<Owner>, owner: seq<Owner>, s: nat, numbers: seq<nat>,
                     count: nat)
    requires Linked(f, blocks, was) && Adds(was, owner) && RootFirst(was) && f.count >= DIRECT && s < |blocks|
    requires f.count + count <= MAX_BLOCKS && |numbers| == POINTERS
    requires f.count == DIRECT ==>
      owner[s].Meta? && (forall i | 0 <= i < count :: numbers[i] < |blocks| && owner[numbers[i]].Slot?)
    requires f.count > DIRECT ==> s == 0 && NoneBehind(AsPointers(blocks[f.single]), f.count - DIRECT)
    ensures f.count == DIRECT ==>
      Linked(f.(single := s, count := DIRECT + count), blocks[s := Pointers(numbers)], owner)
    ensures f.count > DIRECT ==>
      f.single != 0 && Linked(f.(count := f.count + count), blocks[s := Pointers(numbers)], owner)
  {
    LinkedStays(f, blocks, was, owner);
    if f.count > DIRECT {
      LinkedAgain(f, blocks, owner, numbers, count);
    } else {
      LinkedFirst(f, blocks, owner, s, numbers, count);
    }
  }

  /** The file's blocks hold bytes or are still blank. */
  ghost predicate PlainIn(n: nat, blocks: seq<Content>, owner: seq<Owner>)
  {
    |owner| == |blocks| && forall b | 0 <= b < |blocks| && OwnedBy(owner[b], n) && owner[b].Slot? ::
      blocks[b].Blank? || blocks[b].Data?
  }

  /** A first indirection block with its numbers. */
  lemma NumbersPlaced(n: nat, file: Inode, f: Inode, blocks: seq<Content>, blocks': seq<Content>, owner: seq<Owner>,
                      owner': seq<Owner>, s: nat, numbers: seq<nat>)
    requires Sound(file, blocks) && file.count == DIRECT < f.count <= MAX_BLOCKS &&
      f == file.(single := s, count := f.count)
    requires OnlyFor(n, blocks, blocks, owner, owner') && PlainIn(n, blocks, owner') && |numbers| == POINTERS &&
      NoneBehind(numbers, f.count - DIRECT)
    requires OwnsList(n, file.direct + numbers[..f.count - DIRECT], {s}, owner') && s < |blocks| && owner[s].Free?
    requires blocks' == blocks[s := Pointers(numbers)]
    ensures Sound(f, blocks') && OwnsList(n, BlockList(f, blocks'), MetaOf(f), owner') && PlainIn(n, blocks', owner')
    ensures OnlyFor(n, blocks, blocks', owner, owner') && Kept(blocks, blocks', owner)
  {
    assert s in {s};
    assert BlockList(f, blocks') == file.direct + numbers[..f.count - DIRECT];
  }

  /** Block `i` of a file after its part of `data` was written over what it held. */
  lemma OneWritten(n: nat, f: Inode, data: seq<Byte>, was: seq<Byte>, i: nat, junk: Junk, blocks: seq<Content>,
                   owner: seq<Owner>,
                   b: nat, size: nat, blocks': seq<Content>)
    requires PlainIn(n, blocks, owner) && Sound(f, blocks) && OwnsList(n, BlockList(f, blocks), MetaOf(f), owner) &&
      i < f.count
    requires b == RelativeBlock(f, blocks, i) < |blocks| && Chunk(was, i) <= AsBytes(blocks[b]) && 1024 * i <= |data|
    requires size == Min(1024, |data| - 1024 * i)
    requires blocks' == blocks[b := Data(data[1024 * i..1024 * i + size] + AsBytes(blocks[b])[size..])]
    ensures PlainIn(n, blocks', owner) && OnlyFor(n, blocks, blocks', owner, owner) &&
      HasChunk(blocks'[b], Overlaid(was, data), i)
    ensures Sound(f, blocks') && BlockList(f, blocks') == BlockList(f, blocks) && BlockList(f, blocks)[i] == b
  {
    RelativeBlockIsListed(f, blocks, i);
    ChunkOverlaid(was, data, i, AsBytes(blocks[b]));
    assert f.count > DIRECT ==> f.single in MetaOf(f) && f.single != b;
  }

  /** The first `i` blocks of a file that held `was` in `start` have been written, and the others are as they were. */
  ghost predicate Copied(n: nat, f: Inode, data: seq<Byte>, was: seq<Byte>, start: seq<Content>, blocks: seq<Content>,
                         owner: seq<Owner>, i: nat)
  {
    && Ready(n, f, data, was, start, owner) && OnlyFor(n, start, blocks, owner, owner) && PlainIn(n, blocks, owner)
    && Sound(f, blocks) && BlockList(f, blocks) == BlockList(f, start)
    && (forall j | 0 <= j < i && j < f.count :: HasChunk(blocks[BlockList(f, start)[j]], Overlaid(was, data), j))
    && (forall j | i <= j < f.count :: blocks[BlockList(f, start)[j]] == start[BlockList(f, start)[j]])
  }

  lemma CopiedNext(n: nat, f: Inode, data: seq<Byte>, was: seq<Byte>, start: seq<Content>, blocks: seq<Content>,
                   owner: seq<Owner>, i: nat,
                   junk: Junk, b: nat, size: nat, blocks': seq<Content>)
    requires Copied(n, f, data, was, start, blocks, owner, i) && i < f.count && 1024 * i <= |data| &&
      size == Min(1024, |data| - 1024 * i)
    requires b == RelativeBlock(f, blocks, i) < |blocks| && |BytesIn(blocks[b], junk)| == 1024
    requires blocks' == blocks[b := Data(data[1024 * i..1024 * i + size] + BytesIn(blocks[b], junk)[size..])]
    ensures Copied(n, f, data, was, start, blocks', owner, i + 1)
  {
    var list := BlockList(f, start);
    RelativeBlockIsListed(f, blocks, i);
    assert blocks[b] == start[list[i]] && owner[b] == Slot(n, i);
    OneWritten(n, f, data, was, i, junk, blocks, owner, b, size, blocks');
    OnlyForThen(n, start, blocks, blocks', owner, owner, owner);
    assert forall j, k | 0 <= j < k < |list| :: list[j] != list[k];
    ChunksStay(blocks, blocks', start, list, Overlaid(was, data), i);
  }

  lemma CopiedAll(n: nat, f: Inode, data: seq<Byte>, was: seq<Byte>, start: seq<Content>, blocks: seq<Content>,
                  owner: seq<Owner>)
    requires Copied(n, f, data, was, start, blocks, owner, |data| / 1024 + 1)
    ensures forall j | 0 <= j < f.count :: HasChunk(blocks[BlockList(f, blocks)[j]], Overlaid(was, data), j)
  {
    forall j | |data| / 1024 < j < f.count ensures HasChunk(blocks[BlockList(f, blocks)[j]], Overlaid(was, data), j) {
      ChunkBehind(was, data, j);
    }
  }

  /** An append starts at or before the level that the inode has reached, and its indirection block has no number behind
      those of its blocks. */
  predicate Growable(f: Inode, blocks: seq<Content>)
  {
    && (StartLevel(f.size) == 0 || f.count >= DIRECT)
    && if f.count <= DIRECT then f.single == 0
         else f.single < |blocks| && NoneBehind(AsPointers(blocks[f.single]), f.count - DIRECT)
  }

  /** A file that is grown although it cannot be written again lists block 0. */
  lemma GrownListsZero(o: Object, data: seq<Byte>, file: Inode, f: Inode, start: seq<Content>, blocks: seq<Content>)
    returns (j: nat)
    requires !Goes(o, data) && |file.direct| == |f.direct| == DIRECT && |start| == |blocks| && Growable(file, start)
    requires f.count >= file.count && |data| / 1024 < f.count <= MAX_BLOCKS
    requires f.direct[..Min(file.count, DIRECT)] == file.direct[..Min(file.count, DIRECT)]
    requires file.count > DIRECT ==> f.single == file.single < |start| && blocks[f.single] == start[f.single]
    requires if o.bytes == [] then file.count == 2 && file.direct[1] == 0 else file.count == |o.bytes| / 1024 + 1
    ensures ListsZero(f, blocks, j)
  {
    if o.bytes == [] {
      j := 1;
      assert f.direct[..2][1] == file.direct[..2][1];
    } else {
      j := file.count;
    }
  }

  lemma RootListsZero(t: seq<Object>, inodes: seq<Inode>, blocks: seq<Content>, owner: seq<Owner>)
    requires Holds(t, 0, inodes, blocks, owner) && RootFirst(owner)
    ensures forall any: seq<Content> :: ListsZero(inodes[0], any, 0)
  {
    assert OwnedBy(owner[0], 0) && BlockList(inodes[0], blocks)[0] == 0;
  }

  /** The directory of an object is another object, and all its direct numbers are blocks. */
  lemma ParentInRange(t: seq<Object>, n: nat, inodes: seq<Inode>, blocks: seq<Content>, owner: seq<Owner>, k: nat)
    requires HoldsTree(t, inodes, blocks, owner) && 0 < n < |t| && t[n].kind == Regular && ChildAt(t, t[n].parent, k)
    ensures t[n].parent != n && t[n].parent < |inodes| && |inodes[t[n].parent].direct| == DIRECT
    ensures forall j | 0 <= j < DIRECT :: inodes[t[n].parent].direct[j] < |blocks|
  {
    var d := t[n].parent;
    assert Shaped(t[n]) && Shaped(t[d]) && Holds(t, d, inodes, blocks, owner);
    var inode := inodes[d];
    forall j | 0 <= j < DIRECT ensures inode.direct[j] < |blocks| {
      if j < inode.count { assert BlockList(inode, blocks)[j] == inode.direct[j]; }
    }
  }

  /** How a write ends: it is done, the blocks do not suffice, or the search for the directory entry does not stop. */
  datatype Outcome = Done | NoSpace | Astray

  /** Only listed blocks change. */
  ghost predicate SlotsOnly(was: seq<Content>, now: seq<Content>, owner: seq<Owner>)
  {
    |now| == |was| == |owner| && forall b | 0 <= b < |was| && !owner[b].Slot? :: now[b] == was[b]
  }

  lemma LinkedKept(f: Inode, blocks: seq<Content>, blocks': seq<Content>, owner: seq<Owner>)
    requires Linked(f, blocks, owner) && SlotsOnly(blocks, blocks', owner)
    ensures Linked(f, blocks', owner)
  {
    forall j | 0 <= j < f.count ensures LinkedAt(f, blocks', owner, j) {
      assert LinkedAt(f, blocks, owner, j);
    }
  }

  /** Inode `f` lists block 0 as its block `j`. */
  predicate ListsZero(f: Inode, blocks: seq<Content>, j: nat)
  {
    j < f.count && |f.direct| == DIRECT && (j >= DIRECT ==> f.single < |blocks|) && RelativeBlock(f, blocks, j) == 0
  }

  /** Changes to listed blocks, and new directory entries anywhere, do not alter that. */
  lemma ListsZeroStays(f: Inode, g: Inode, blocks: seq<Content>, blocks': seq<Content>, j: nat)
    requires ListsZero(f, blocks, j) && g == f.(size := g.size) && |blocks'| == |blocks|
    requires j >= DIRECT ==> blocks'[f.single] == blocks[f.single] || blocks'[f.single].Entries?
    ensures ListsZero(g, blocks', j)
  {
  }

  /** Blocks are as they were, or hold directory entries. */
  ghost predicate EntriesAdded(was: seq<Content>, now: seq<Content>)
  {
    |now| == |was| && forall b | 0 <= b < |was| :: now[b] == was[b] || now[b].Entries?
  }

  /** An image whose inode `n` lists block 0, the first block of the root directory, holds no tree. */
  lemma Clash(t: seq<Object>, n: nat, inodes: seq<Inode>, blocks: seq<Content>, o: seq<Owner>, j: nat)
    requires 0 < n < |inodes| && n < |t| && ListsZero(inodes[n], blocks, j) && ListsZero(inodes[0], blocks, 0)
    ensures !HoldsTree(t, inodes, blocks, o)
  {
    if HoldsTree(t, inodes, blocks, o) {
      assert Holds(t, 0, inodes, blocks, o) && Holds(t, n, inodes, blocks, o);
      RelativeBlockIsListed(inodes[n], blocks, j);
    }
  }

  /** The block bitmap marks the blocks in use, and the others were never written. */
  ghost predicate SpaceOf(blockMap: seq<bv8>, blockMapBlocks: nat, blocks: seq<Content>, owner: seq<Owner>)
  {
    && |blockMap| == 1024 * blockMapBlocks && 8 * |blockMap| <= |blocks| == |owner|
    && (forall b: nat | b < |blocks| :: Marked(blockMap, b) <==> !owner[b].Free?)
    && (forall b | 0 <= b < |blocks| && owner[b].Free? :: blocks[b].Blank?)
  }

  /** The inode bitmap marks the objects of the tree. */
  ghost predicate NamesOf(inodeMap: seq<bv8>, inodeMapBlocks: nat, inodes: nat, t: seq<Object>)
  {
    && |inodeMap| == 1024 * inodeMapBlocks && |t| <= 8 * |inodeMap| <= inodes
    && (forall n: nat :: Marked(inodeMap, n) <==> n < |t|)
  }

  /** The regions of the image: inode bitmap, block bitmap, inode table and data blocks. */
  class Image {
    const inodeMapBlocks: nat
    const blockMapBlocks: nat
    var inodes: seq<Inode>
    var inodeMap: seq<bv8>
    var blockMap: seq<bv8>
    var blocks: seq<Content>
    ghost var owner: seq<Owner>      // who uses each block
    ghost var tree: seq<Object>      // what the image holds

    ghost predicate Space()
      reads this
    {
      SpaceOf(blockMap, blockMapBlocks, blocks, owner)
    }

    ghost predicate Names()
      reads this
    {
      NamesOf(inodeMap, inodeMapBlocks, |inodes|, tree)
    }

    ghost predicate Valid()
      reads this
    {
      HoldsAs(tree, owner)
    }

    /** The image holds `t`, with its blocks used as `o` says. */
    ghost predicate HoldsAs(t: seq<Object>, o: seq<Owner>)
      reads this
    {
      && SpaceOf(blockMap, blockMapBlocks, blocks, o) && NamesOf(inodeMap, inodeMapBlocks, |inodes|, t)
      && HoldsTree(t, inodes, blocks, o)
    }

    /** The image holds some tree. */
    ghost predicate HoldsSome()
      reads this
    {
      exists t, o :: HoldsAs(t, o)
    }

    ghost predicate Full()
      reads this
    {
      forall b: nat | b < 8 * |blockMap| :: Marked(blockMap, b)
    }

    /** The empty image with its root directory, inode 0. */
    constructor (inodeMapBlocks: nat, blockMapBlocks: nat, inodeCount: nat, blockCount: nat)
      requires inodeMapBlocks > 0 && 8192 * inodeMapBlocks <= inodeCount && 8192 * blockMapBlocks <= blockCount
      ensures Valid() && tree == [ROOT]
      ensures |inodeMap| == 1024 * inodeMapBlocks && |blockMap| == 1024 * blockMapBlocks
    {
      this.inodeMapBlocks, this.blockMapBlocks := inodeMapBlocks, blockMapBlocks;
      var root := Inode(Directory, "/", 0, 0, 0, seq(DIRECT, i => 0), 0);
      inodes := seq(inodeCount, i => root);
      blockMap := seq(1024 * blockMapBlocks, i => 0);
      blocks := seq(blockCount, i => Blank);
      owner := seq(blockCount, i => Free);
      tree := [ROOT];
      var clear := seq(1024 * inodeMapBlocks, i => 0);
      NothingMarked(clear);
      assert !Marked(clear, 0);
      var r, marked := MarkInode(clear, inodeMapBlocks);
      inodeMap := marked;
      new;
      NothingMarked(blockMap);
      BareHolds(tree, 0, inodes, blocks, owner);
    }

    /** Finds a free block and marks it; nothing found is the exit. */
    method GetFreeBlock(ghost user: Owner) returns (r: Option<nat>)
      requires Space() && !user.Free?
      modifies this`blockMap, this`owner
      ensures Space() && (r.None? ==> Full() && owner == old(owner))
      ensures r.Some? ==> r.value < |blocks| && old(owner)[r.value].Free? && owner == old(owner)[r.value := user]
      ensures r.Some? ==> forall b | 0 <= b < r.value :: !old(owner)[b].Free?
    {
      r, blockMap := MarkBlock(blockMap, blockMapBlocks);
      if r.Some? {
        owner := owner[r.value := user];
      }
    }

    /** `diosfs_write_dirent`: `p` is the caller's copy of the directory, read again unless it looks full. */
    method WriteDirent(d: nat, p: Inode, entry: Dirent) returns (ok: bool, q: Inode, ghost b: nat)
      requires Space() && d < |inodes| && Holds(tree, d, inodes, blocks, owner) && tree[d].kind == Directory
      requires |tree[d].children| <= MAX_CHILDREN && p.size == inodes[d].size + 1
      modifies this`blockMap, this`owner, this`blocks, this`inodes
      ensures Space() && (!ok ==> Full())
      ensures |tree[d].children| == MAX_CHILDREN ==> ok && q == p && unchanged(this)
      ensures ok && |tree[d].children| < MAX_CHILDREN ==>
        Appended(d, old(inodes)[d], q, old(blocks), blocks, old(owner), owner, b, entry) &&
          inodes == old(inodes)[d := q]
      ensures ok && |tree[d].children| < MAX_CHILDREN && owner != old(owner) ==>
        forall c | 0 <= c < b :: !old(owner)[c].Free?
    {
      ok, q, b := true, p, 0;
      if p.size == 71 {
        return;
      }
      q := inodes[d];
      var block, slot := q.size / 7, q.size % 7;
      if slot == 0 || q.count == 0 {
        var r := GetFreeBlock(Slot(d, q.count));
        if r.None? {
          ok := false;
          return;
        }
        q := q.(direct := q.direct[block := r.value], count := q.count + 1);
      }
      b := q.direct[block];
      assert blocks[b].Blank? || blocks[b].Entries?;
      blocks := blocks[q.direct[block] := Entries(AsEntries(blocks[q.direct[block]])[slot := entry])];
      q := q.(size := q.size + 1);
      inodes := inodes[d := q];
    }

    /** `diosfs_create`. Within the limits the tree gains one object. In a directory with 70 entries no entry is
        written, yet the size of the directory becomes 71. */
    method Create(parent: nat, name: string, kind: Kind) returns (r: Option<nat>)
      requires Valid() && parent < |tree| && tree[parent].kind == Directory && |tree[parent].children| <= MAX_CHILDREN
      requires |name| < 128
      modifies this`inodeMap, this`blockMap, this`owner, this`blocks, this`inodes, this`tree
      ensures r.Some? ==> r.value == |old(tree)|
      ensures r.None? ==> Full() || forall n: nat | n < 8 * |inodeMap| :: Marked(inodeMap, n)
      ensures r.Some? && r.value < PER_BLOCK && |old(tree)[parent].children| < MAX_CHILDREN ==>
        Valid() && tree == Apply(old(tree), Step.Create(parent, name, kind))
      ensures r.Some? && |old(tree)[parent].children| == MAX_CHILDREN ==>
        blocks == old(blocks) && |inodes| == |old(inodes)| && inodes[parent] == old(inodes)[parent].(size := 71)
    {
      var found := MakeInode(parent, name, kind);
      if found.None? {
        return None;
      }
      assert Holds(tree, parent, old(inodes), blocks, owner);
      assert Holds(tree, parent, inodes, blocks, owner);
      var p := inodes[parent].(size := inodes[parent].size + 1);
      var ok, q, b := WriteDirent(parent, p, Dirent(name, found.value, parent, kind, 0));
      if !ok {
        return None;
      }
      inodes := inodes[parent := q];
      r := found;
      if r.value < PER_BLOCK && |tree[parent].children| < MAX_CHILDREN {
        Created(old(tree), Step.Create(parent, name, kind), old(inodes), inodes, old(blocks), blocks, old(owner), owner,
          b);
        tree := Apply(tree, Step.Create(parent, name, kind));
      }
    }

    /** Marks and fills the next inode. */
    method MakeInode(parent: nat, name: string, kind: Kind) returns (found: Option<nat>)
      requires Names()
      modifies this`inodeMap, this`inodes
      ensures |inodeMap| == |old(inodeMap)| &&
        (found.None? ==> forall n: nat | n < 8 * |inodeMap| :: Marked(inodeMap, n))
      ensures found.Some? ==> found.value == |tree| < |old(inodes)|
      ensures found.Some? ==> inodes == old(inodes)[|tree| := Inode(kind, name, parent, 0, 0, seq(DIRECT, i => 0), 0)]
      ensures found.Some? && found.value < PER_BLOCK ==>
        |tree| < 8 * |inodeMap| && forall n: nat :: Marked(inodeMap, n) <==> n < |tree| + 1
    {
      ghost var taken := Marked(inodeMap, |tree|);
      var marked;
      found, marked := MarkInode(inodeMap, inodeMapBlocks);
      inodeMap := marked;
      if found.Some? {
        inodes := inodes[found.value := Inode(kind, name, parent, 0, 0, seq(DIRECT, i => 0), 0)];
      }
    }

    ghost predicate PlainFor(n: nat)
      reads this
    {
      PlainIn(n, blocks, owner)
    }

    /** The next block of file `n`. If the write goes well, `list` and `meta` are the blocks it has so far. */
    method NextBlock(n: nat, ghost list: seq<nat>, ghost meta: set<nat>, ghost before: seq<Owner>, ghost good: bool)
      returns (r: Option<nat>)
      requires Space() && (good ==>
        PlainFor(n) && OwnsList(n, list, meta, owner) && OnlyFor(n, blocks, blocks, before, owner))
      modifies this`blockMap, this`owner
      ensures Space() && Adds(old(owner), owner) && (r.None? ==> Full())
      ensures r.Some? ==> r.value < |blocks| && owner[r.value].Slot?
      ensures good ==> PlainFor(n) && OnlyFor(n, blocks, blocks, before, owner)
      ensures good && r.Some? ==> OwnsList(n, list + [r.value], meta, owner)
    {
      r := GetFreeBlock(Slot(n, |list|));
      if r.Some? && good {
        OwnsNext(n, list, meta, old(owner), r.value);
        OnlyForThen(n, blocks, blocks, blocks, before, old(owner), owner);
      }
    }

    /** What an allocation for a write that goes well starts from: no indirection block yet. */
    ghost predicate Direct(n: nat, file: Inode)
      reads this
    {
      PlainFor(n) && Sound(file, blocks) && 0 < file.count <= DIRECT &&
        OwnsList(n, file.direct[..file.count], {}, owner)
    }

    /** `diosfs_inode_allocate_new_blocks`. The level to start at comes from the size. */
    method AllocateBlocks(n: nat, file: Inode, count: nat, junk: Junk, ghost good: bool) returns (ok: bool, f: Inode)
      requires Space() && Linked(file, blocks, owner) && RootFirst(owner) && count > 0 &&
        file.count + count <= MAX_BLOCKS && Plausible(junk, |blocks|)
      requires Growable(file, blocks) && (good ==> Direct(n, file))
      modifies this`blockMap, this`owner, this`blocks
      ensures Space() && (!ok ==> Full()) && Adds(old(owner), owner)
      ensures ok ==>
        Linked(f, blocks, owner) && f == file.(count := file.count + count, direct := f.direct, single := f.single)
      ensures ok ==> f.direct[..Min(file.count, DIRECT)] == file.direct[..Min(file.count, DIRECT)]
      ensures ok && file.count > DIRECT ==>
        f.single == file.single < |old(blocks)| && blocks[f.single] == old(blocks)[f.single]
      ensures good ==> OnlyFor(n, old(blocks), blocks, old(owner), owner)
      ensures ok && good ==> Sound(f, blocks) && OwnsList(n, BlockList(f, blocks), MetaOf(f), owner) && PlainFor(n)
      ensures ok && good ==> Kept(old(blocks), blocks, old(owner))
    {
      f, ok := file, true;
      var left := count;
      if StartLevel(file.size) == 0 {
        ok, f, left := AllocateDirect(n, file, count, good);
      }
      if ok && left > 0 {
        assert f.count <= DIRECT ==> f.direct[..f.count] == f.direct;
        ghost var before := owner;
        ok, f := AllocateSingle(n, f, left, junk, good);
        if good {
          OnlyForThen(n, old(blocks), old(blocks), blocks, old(owner), before, owner);
        }
      }
    }

    /** The direct level: takes as many of the `count` blocks as there is room for. */
    method AllocateDirect(n: nat, file: Inode, count: nat, ghost good: bool) returns (ok: bool, f: Inode, left: nat)
      requires Space() && Linked(file, blocks, owner) && (good ==> Direct(n, file))
      modifies this`blockMap, this`owner
      ensures Space() && (!ok ==> Full()) && Adds(old(owner), owner)
      ensures ok ==>
        Linked(f, blocks, owner) && left + f.count == file.count + count && (left > 0 ==> f.count >= DIRECT)
      ensures ok ==>
        f == file.(count := f.count, direct := f.direct) && (file.count <= DIRECT ==> f.count <= DIRECT) &&
        (file.count >= DIRECT ==> f == file)
      ensures ok ==>
        file.count <= f.count && f.direct[..Min(file.count, DIRECT)] == file.direct[..Min(file.count, DIRECT)]
      ensures good ==> PlainFor(n) && OnlyFor(n, blocks, blocks, old(owner), owner)
      ensures ok && good ==> Direct(n, f)
    {
      f, ok, left := file, true, count;
      while f.count < DIRECT && left > 0
        invariant Space() && Adds(old(owner), owner) && Linked(f, blocks, owner)
        invariant file.count <= f.count && (file.count < DIRECT ==> f.count <= DIRECT) &&
          left + f.count == file.count + count
        invariant f == file.(count := f.count, direct := f.direct) && (file.count >= DIRECT ==> f == file)
        invariant f.direct[..Min(file.count, DIRECT)] == file.direct[..Min(file.count, DIRECT)]
        invariant good ==> Direct(n, f) && OnlyFor(n, blocks, blocks, old(owner), owner)
        decreases left
      {
        ghost var was, list := owner, f.direct[..f.count];
        var r := NextBlock(n, list, {}, old(owner), good);
        if r.None? {
          ok := false;
          return;
        }
        LinkedStays(f, blocks, was, owner);
        LinkedNext(f, blocks, owner, r.value);
        f := f.(direct := f.direct[f.count := r.value], count := f.count + 1);
        assert f.direct[..f.count] == list + [r.value];
        left := left - 1;
      }
    }

    /** `diosfs_allocate_single_indirect_block`. If the inode has an indirection block already, the numbers go to
        block 0 instead. */
    method AllocateSingle(n: nat, file: Inode, count: nat, junk: Junk, ghost good: bool) returns (ok: bool, f: Inode)
      requires Space() && Linked(file, blocks, owner) && RootFirst(owner) && file.count >= DIRECT && count > 0 &&
        file.count + count <= MAX_BLOCKS
      requires Plausible(junk, |blocks|) && (file.count == DIRECT ==> file.single == 0)
      requires file.count > DIRECT ==> NoneBehind(AsPointers(blocks[file.single]), file.count - DIRECT)
      requires good ==> Direct(n, file)
      modifies this`blockMap, this`owner, this`blocks
      ensures Space() && (!ok ==> Full()) && Adds(old(owner), owner)
      ensures ok ==> Linked(f, blocks, owner) && f == file.(count := file.count + count, single := f.single)
      ensures ok && file.count > DIRECT ==>
        f.single == file.single < |old(blocks)| && blocks[f.single] == old(blocks)[f.single]
      ensures good ==> OnlyFor(n, old(blocks), blocks, old(owner), owner)
      ensures ok && good ==> Sound(f, blocks) && OwnsList(n, BlockList(f, blocks), MetaOf(f), owner) && PlainFor(n)
      ensures ok && good ==> Kept(old(blocks), blocks, old(owner))
    {
      var s;
      ok, f, s := PickSingle(n, file, count, good);
      if !ok {
        return;
      }
      var numbers;
      ok, numbers := FillNumbers(n, f.direct, file.count - DIRECT, count, s, junk, old(owner), good);
      if ok {
        LinkedFilled(file, blocks, old(owner), owner, s, numbers, count);
        blocks := blocks[s := Pointers(numbers)];
        f := f.(count := f.count + count);
        if good {
          NumbersPlaced(n, file, f, old(blocks), blocks, old(owner), owner, s, numbers);
        }
      }
    }

    /** The block that the numbers go to: a new one if the inode has none, and else block 0. */
    method PickSingle(n: nat, file: Inode, ghost count: nat, ghost good: bool) returns (ok: bool, f: Inode, s: nat)
      requires Space() && Linked(file, blocks, owner) && RootFirst(owner) && file.count >= DIRECT &&
        file.count + count <= MAX_BLOCKS
      requires file.count == DIRECT ==> file.single == 0
      requires file.count > DIRECT ==> NoneBehind(AsPointers(blocks[file.single]), file.count - DIRECT)
      requires good ==> Direct(n, file)
      modifies this`blockMap, this`owner
      ensures Space() && (!ok ==> Full()) && Adds(old(owner), owner) && s < |blocks|
      ensures ok && file.count > DIRECT ==> f == file && s == 0
      ensures ok && file.count == DIRECT ==> f == file.(single := s) && owner[s].Meta?
      ensures good ==> OnlyFor(n, blocks, blocks, old(owner), owner)
      ensures ok && good ==>
        PlainFor(n) && OwnsList(n, file.direct, {s}, owner) && old(owner)[s].Free? && blocks[s].Blank?
    {
      f, ok, s := file, true, 0;
      if file.count > DIRECT {
        LinkedAgain(file, blocks, owner, [], count);
      }
      if f.single == 0 {
        var r := GetFreeBlock(Meta(n));
        if r.None? {
          ok := false;
          return;
        }
        s := r.value;
        f := f.(single := s);
        if good {
          assert f.direct[..DIRECT] == f.direct;
          OwnsMeta(n, f.direct, old(owner), s);
        }
      }
    }

    /** The loop that fills in the numbers. */
    method FillNumbers(n: nat, ghost direct: seq<nat>, taken: nat, count: nat, s: nat, junk: Junk,
                       ghost before: seq<Owner>, ghost good: bool)
      returns (ok: bool, numbers: seq<nat>)
      requires Space() && |direct| == DIRECT && taken + count <= POINTERS && s < |blocks| && Plausible(junk, |blocks|)
      requires good ==>
        PlainFor(n) && taken == 0 && blocks[s].Blank? && OwnsList(n, direct, {s}, owner) &&
        OnlyFor(n, blocks, blocks, before, owner)
      modifies this`blockMap, this`owner
      ensures Space() && (!ok ==> Full()) && Adds(old(owner), owner)
      ensures ok ==>
        |numbers| == POINTERS && forall i | taken <= i < taken + count ::
        numbers[i] < |blocks| && owner[numbers[i]].Slot?
      ensures good ==> PlainFor(n) && OnlyFor(n, blocks, blocks, before, owner)
      ensures ok && good ==> OwnsList(n, direct + numbers[..count], {s}, owner) && NoneBehind(numbers, count)
    {
      var i := taken;
      numbers, ok := NumbersIn(blocks[s], junk), true;
      assert good ==> direct + numbers[..0] == direct;
      while i < taken + count
        invariant taken <= i <= taken + count && |numbers| == POINTERS && Space() && Adds(old(owner), owner)
        invariant forall j | taken <= j < i :: numbers[j] < |blocks| && owner[numbers[j]].Slot?
        invariant good ==>
          PlainFor(n) && OnlyFor(n, blocks, blocks, before, owner) && OwnsList(n, direct + numbers[..i], {s}, owner) &&
          NoneBehind(numbers, i)
      {
        ghost var list := direct + numbers[..i];
        var r := NextBlock(n, list, {s}, before, good);
        if r.None? {
          ok := false;
          return;
        }
        numbers := numbers[i := r.value];
        i := i + 1;
        assert good ==> direct + numbers[..i] == list + [r.value];
      }
    }

    /** The copying loop of `diosfs_write_bytes_to_inode`, over a file that holds `was` if the write goes well. */
    method WriteBlocks(n: nat, f: Inode, data: seq<Byte>, ghost was: seq<Byte>, junk: Junk, ghost good: bool)
      requires Space() && Linked(f, blocks, owner) && |data| / 1024 < f.count && Plausible(junk, |blocks|)
      requires good ==> PlainFor(n) && Ready(n, f, data, was, blocks, owner)
      modifies this`blocks
      ensures Space() && SlotsOnly(old(blocks), blocks, owner) && Linked(f, blocks, owner)
      ensures good ==> Copied(n, f, data, was, old(blocks), blocks, owner, |data| / 1024 + 1)
    {
      var end := |data| / 1024;
      for i := 0 to end + 1
        invariant Space() && SlotsOnly(old(blocks), blocks, owner) && Linked(f, blocks, owner)
        invariant good ==> Copied(n, f, data, was, old(blocks), blocks, owner, i)
      {
        WriteOne(n, f, data, was, i, junk, old(blocks), good);
      }
    }

    /** One turn of the copying loop. */
    method WriteOne(n: nat, f: Inode, data: seq<Byte>, ghost was: seq<Byte>, i: nat, junk: Junk,
                    ghost start: seq<Content>, ghost good: bool)
      requires Space() && Linked(f, blocks, owner) && i <= |data| / 1024 && i < f.count && Plausible(junk, |blocks|)
      requires good ==> Copied(n, f, data, was, start, blocks, owner, i)
      modifies this`blocks
      ensures Space() && SlotsOnly(old(blocks), blocks, owner) && Linked(f, blocks, owner)
      ensures good ==> Copied(n, f, data, was, start, blocks, owner, i + 1)
    {
      var left := |data| - 1024 * i;
      var size := if 1024 < left then 1024 else left;
      assert LinkedAt(f, blocks, owner, i);
      var b := RelativeBlock(f, blocks, i);
      var bytes := data[1024 * i..1024 * i + size] + BytesIn(blocks[b], junk)[size..];
      blocks := blocks[b := Data(bytes)];
      LinkedKept(f, old(blocks), blocks, owner);
      if good {
        CopiedNext(n, f, data, was, start, old(blocks), owner, i, junk, b, size, blocks);
      }
    }

    /** The search of a directory that holds the entry finds it in its place. */
    ghost predicate Findable(n: nat, d: nat, k: nat)
      reads this
    {
      && Holds(tree, d, inodes, blocks, owner) && n < |inodes| && tree[d].kind == Directory && ChildrenDistinct(tree[d])
      && k < |tree[d].children| && tree[d].children[k] == n && forall i | 0 <= i < |tree[d].children| ::
           tree[d].children[i] < |tree|
    }

    /** `diosfs_find_directory_entry_and_update`. Nothing but the entry itself stops the search, unless the directory is
        empty; a block that holds no entries is read all the same. */
    method UpdateEntry(n: nat, d: nat, ghost k: nat, junk: Junk, ghost good: bool) returns (found: bool)
      requires n < |inodes| && d < |inodes| && |inodes[d].direct| == DIRECT && Plausible(junk, |blocks|)
      requires forall j | 0 <= j < DIRECT :: inodes[d].direct[j] < |blocks|
      requires good ==> Space() && Findable(n, d, k)
      modifies this`blocks
      ensures EntriesAdded(old(blocks), blocks)
      ensures good ==>
        found && Space() && k / 7 < DIRECT &&
        blocks == Refreshed(old(blocks), inodes[d].direct[k / 7], k % 7, inodes[n])
    {
      var dir := inodes[d];
      found := true;
      if dir.kind != Directory || dir.size == 0 {
        return;
      }
      var j := 0;
      while j < DIRECT
        invariant j <= DIRECT && blocks == old(blocks) && (good ==> 7 * j <= k)
      {
        var b := dir.direct[j];
        if good {
          assert j < dir.count && BlockList(dir, blocks)[j] == b;
        }
        if blocks[b].Data? || blocks[b].Pointers? {
          break;
        }
        var i := SlotWith(n, d, k, j, AsEntries(blocks[b]), good);
        if i < 7 {
          var slots := AsEntries(blocks[b]);
          blocks := blocks[b := Entries(slots[i := slots[i].(name := inodes[n].name, size := inodes[n].size,
            parent := inodes[n].parent)])];
          return;
        }
        j := j + 1;
      }
      found := junk.found.Some?;
      if found {
        blocks := blocks[junk.found.value.block := Entries(junk.found.value.slots)];
      }
    }

    /** The first slot with inode `n`; 7 if there is none. */
    method SlotWith(n: nat, ghost d: nat, ghost k: nat, ghost j: nat, slots: seq<Dirent>, ghost good: bool)
      returns (i: nat)
      requires |slots| == 7 && (good ==>
        Findable(n, d, k) && 7 * j <= k && j < inodes[d].count &&
        slots == AsEntries(blocks[BlockList(inodes[d], blocks)[j]]))
      ensures i <= 7 && (good ==> if i < 7 then 7 * j + i == k else 7 * (j + 1) <= k)
    {
      i := 0;
      while i < 7
        invariant i <= 7 && (good ==> 7 * j + i <= k)
      {
        assert good ==> SlotHolds(tree, tree[d], blocks[BlockList(inodes[d], blocks)[j]], j, i);
        if slots[i].inode == n {
          return;
        }
        i := i + 1;
      }
    }

    /** An empty file gets a first block, in the place of the one it has if it was written before. */
    method FirstBlock(n: nat, ghost good: bool) returns (ok: bool, f: Inode)
      requires Space() && Holds(tree, n, inodes, blocks, owner) && tree[n].kind == Regular && Shaped(tree[n]) &&
        RootFirst(owner)
      requires good <==> (tree[n].written ==> tree[n].bytes != [])
      modifies this`blockMap, this`owner, this`inodes
      ensures Space() && (!ok ==> Full()) && Adds(old(owner), owner) && SparesOthers(old(inodes), inodes, n)
      ensures ok ==> f == old(inodes)[n].(count := f.count, direct := f.direct) && Linked(f, blocks, owner)
      ensures ok ==> Growable(f, blocks) && f.size == |tree[n].bytes|
      ensures ok && !good ==> f.count == 2 && f.direct[1] == 0
      ensures ok && good ==> f.count == |tree[n].bytes| / 1024 + 1
      ensures ok && good ==>
        OnlyFor(n, blocks, blocks, old(owner), owner) && PlainFor(n) && Ready(n, f, [], tree[n].bytes, blocks, owner)
    {
      ok, f := true, inodes[n];
      OwnedIsLinked(n, f, blocks, owner);
      if f.size == 0 {
        var r := NextBlock(n, [], {}, owner, good);
        if r.None? {
          ok := false;
          return;
        }
        LinkedStays(f, blocks, old(owner), owner);
        f := f.(count := f.count + 1, direct := f.direct[0 := r.value]);
        inodes := inodes[n := f];
        LinkedFirstAgain(old(inodes)[n], blocks, owner, r.value);
        if good {
          FirstIsReady(n, f, r.value, blocks, owner);
        }
      } else {
        HeldIsReady(tree, n, inodes, blocks, owner);
      }
    }

    /** The blocks that a write needs beyond those that the file has. */
    method ExtendFile(n: nat, file: Inode, data: seq<Byte>, ghost was: seq<Byte>, junk: Junk, ghost good: bool)
      returns (ok: bool, f: Inode)
      requires Space() && Linked(file, blocks, owner) && RootFirst(owner) && Plausible(junk, |blocks|) &&
        |data| / 1024 < MAX_BLOCKS
      requires Growable(file, blocks) && file.count > 0
      requires good ==>
        PlainFor(n) && Ready(n, file, [], was, blocks, owner) && file.size == |was| &&
        (was == [] || Rewritable(was, data))
      modifies this`blockMap, this`owner, this`blocks
      ensures Space() && (!ok ==> Full()) && Adds(old(owner), owner)
      ensures ok ==> Linked(f, blocks, owner) && f == file.(count := f.count, direct := f.direct, single := f.single)
      ensures ok ==>
        file.count <= f.count && |data| / 1024 < f.count &&
        f.direct[..Min(file.count, DIRECT)] == file.direct[..Min(file.count, DIRECT)]
      ensures ok && file.count > DIRECT ==>
        f.single == file.single < |old(blocks)| && blocks[f.single] == old(blocks)[f.single]
      ensures good ==> OnlyFor(n, old(blocks), blocks, old(owner), owner)
      ensures ok && good ==> PlainFor(n) && Ready(n, f, data, was, blocks, owner)
    {
      ok, f := true, file;
      var end := |data| / 1024;
      if end + 1 > f.count {
        assert good ==> BlockList(file, blocks) == file.direct[..file.count];
        ok, f := AllocateBlocks(n, f, end + 1 - f.count, junk, good);
      }
      if ok && good {
        ReadyExtends(n, file, f, data, was, old(blocks), blocks, old(owner), owner);
      }
    }

    /** The blocks for a write: the first one if the file is empty, and the others as far as they are missing. If the
        write does not go well, block `j` of the file is then block 0. */
    method GrowFile(n: nat, data: seq<Byte>, junk: Junk, ghost good: bool) returns (ok: bool, f: Inode, ghost j: nat)
      requires Space() && Holds(tree, n, inodes, blocks, owner) && Writable(tree, n, data) && Shaped(tree[n]) &&
        RootFirst(owner)
      requires Plausible(junk, |blocks|) && (good <==> Goes(tree[n], data))
      modifies this`blockMap, this`owner, this`blocks, this`inodes
      ensures Space() && (!ok ==> Full()) && Adds(old(owner), owner) && SparesOthers(old(inodes), inodes, n)
      ensures ok ==> Linked(f, blocks, owner) && |data| / 1024 < f.count
      ensures ok ==> f == old(inodes)[n].(count := f.count, direct := f.direct, single := f.single)
      ensures ok && good ==>
        OnlyFor(n, old(blocks), blocks, old(owner), owner) && PlainFor(n) &&
        Ready(n, f, data, tree[n].bytes, blocks, owner)
      ensures ok && !good ==> ListsZero(f, blocks, j)
    {
      j := 0;
      ok, f := FirstBlock(n, tree[n].written ==> tree[n].bytes != []);
      if ok {
        ghost var before, file := owner, f;
        ok, f := ExtendFile(n, f, data, tree[n].bytes, junk, good);
        if good {
          OnlyForThen(n, old(blocks), old(blocks), blocks, old(owner), before, owner);
        } else if ok {
          j := GrownListsZero(tree[n], data, file, f, old(blocks), blocks);
        }
      }
    }

    /** The bytes and the size of a file that has its blocks. */
    method CopyData(n: nat, f: Inode, data: seq<Byte>, ghost was: seq<Byte>, junk: Junk, ghost good: bool)
      requires Space() && Linked(f, blocks, owner) && n < |inodes| && |data| / 1024 < f.count &&
        Plausible(junk, |blocks|)
      requires good ==> PlainFor(n) && Ready(n, f, data, was, blocks, owner) && f.size == |was|
      modifies this`blocks, this`inodes
      ensures Space() && SparesOthers(old(inodes), inodes, n) && SlotsOnly(old(blocks), blocks, owner)
      ensures inodes[n] == f.(size := inodes[n].size)
      ensures good ==>
        OnlyFor(n, old(blocks), blocks, owner, owner) && Filled(f, inodes[n], n, blocks, owner, Overlaid(was, data))
    {
      WriteBlocks(n, f, data, was, junk, good);
      if good {
        CopiedAll(n, f, data, was, old(blocks), blocks, owner);
        ResizedIsFilled(f, f, n, blocks, owner, Overlaid(was, data));
      }
      inodes := inodes[n := Resized(f, |data|)];
    }

    /** Blocks, bytes and inode of the file; the directory entry is still the old one. */
    method FillFile(n: nat, data: seq<Byte>, junk: Junk, ghost good: bool) returns (ok: bool, ghost j: nat)
      requires Space() && Holds(tree, n, inodes, blocks, owner) && Writable(tree, n, data) && Shaped(tree[n]) &&
        RootFirst(owner)
      requires Plausible(junk, |blocks|) && (good <==> Goes(tree[n], data))
      modifies this`blockMap, this`owner, this`blocks, this`inodes
      ensures Space() && (!ok ==> Full()) && SparesOthers(old(inodes), inodes, n) && |blocks| == |old(blocks)|
      ensures ok ==> inodes[n].parent == old(inodes)[n].parent
      ensures ok && good ==> OnlyFor(n, old(blocks), blocks, old(owner), owner)
      ensures ok && good ==> Filled(old(inodes)[n], inodes[n], n, blocks, owner, Overlaid(tree[n].bytes, data))
      ensures ok && !good ==> ListsZero(inodes[n], blocks, j)
    {
      var f;
      ok, f, j := GrowFile(n, data, junk, good);
      if ok {
        ghost var grown := blocks;
        CopyData(n, f, data, tree[n].bytes, junk, good);
        if good {
          OnlyForThen(n, old(blocks), grown, blocks, old(owner), owner, owner);
        } else {
          ListsZeroStays(f, inodes[n], grown, blocks, j);
        }
      }
    }

    /** The file is in place and the other objects are as they were; or the image lists block 0 twice. */
    method PutFile(n: nat, data: seq<Byte>, junk: Junk, ghost good: bool) returns (ok: bool, ghost j: nat)
      requires Valid() && Writable(tree, n, data) && Plausible(junk, |blocks|) && (good <==> Goes(tree[n], data))
      modifies this`blockMap, this`owner, this`blocks, this`inodes
      ensures Space() && (!ok ==> Full()) && SparesOthers(old(inodes), inodes, n) && |blocks| == |old(blocks)|
      ensures ok ==> n < |inodes| && inodes[n].parent == tree[n].parent
      ensures ok && good ==> Put(n, data)
      ensures ok && !good ==> 0 < n && ListsZero(inodes[n], blocks, j) && ListsZero(inodes[0], blocks, 0)
    {
      assert Holds(tree, n, inodes, blocks, owner) && Shaped(tree[n]) && Holds(tree, 0, inodes, blocks, owner);
      RootListsZero(tree, inodes, blocks, owner);
      ok, j := FillFile(n, data, junk, good);
      if ok && good {
        FileWritten(tree, n, data, old(inodes), inodes, old(blocks), blocks, old(owner), owner);
        OwnersStay(n, |tree|, old(blocks), blocks, old(owner), owner);
      }
    }

    /** The image holds the tree but for the entry of `n` in its directory, which is still the old one. */
    ghost predicate Put(n: nat, data: seq<Byte>)
      reads this
    {
      && n < |tree| && n < |inodes| && WellFormed(tree) && tree[0].kind == Directory
      && inodes[n].kind == tree[n].kind && inodes[n].name == tree[n].name && inodes[n].parent == tree[n].parent
      && Filled(inodes[n], inodes[n], n, blocks, owner, Overlaid(tree[n].bytes, data))
      && (forall m | 0 <= m < |tree| && m != n :: Holds(tree, m, inodes, blocks, owner))
      && (forall b | 0 <= b < |owner| && !owner[b].Free? :: owner[b].inode < |tree|) && RootFirst(owner)
    }

    /** The directory entry of a filled file is brought up to date. */
    method RefreshEntry(n: nat, data: seq<Byte>, ghost k: nat, junk: Junk, ghost good: bool) returns (found: bool)
      requires n < |inodes| && inodes[n].parent < |inodes| && Plausible(junk, |blocks|)
      requires |inodes[inodes[n].parent].direct| == DIRECT && forall j | 0 <= j < DIRECT ::
        inodes[inodes[n].parent].direct[j] < |blocks|
      requires good ==> Space() && Put(n, data) && Allowed(tree, Write(n, data))
      requires good ==> ChildAt(tree, tree[n].parent, k) && tree[tree[n].parent].children[k] == n
      modifies this`blocks, this`tree
      ensures EntriesAdded(old(blocks), blocks) && (!good ==> tree == old(tree))
      ensures good ==>
        found && Space() && tree == Apply(old(tree), Write(n, data)) && HoldsTree(tree, inodes, blocks, owner)
    {
      var d := inodes[n].parent;
      if good {
        assert Shaped(tree[d]) && Shaped(tree[n]);
        ChildrenInTree(tree);
      }
      found := UpdateEntry(n, d, k, junk, good);
      if good {
        WriteKeeps(tree, Write(n, data));
        EntryWritten(tree, n, data, inodes, old(blocks), blocks, owner, k);
        tree := Apply(tree, Write(n, data));
      }
    }

    /** An image that lists block 0 twice holds no tree. */
    lemma HoldsNone(n: nat, j: nat)
      requires Names() && 0 < n < |tree| && ListsZero(inodes[n], blocks, j) && ListsZero(inodes[0], blocks, 0)
      ensures !HoldsSome()
    {
      forall t, o ensures !HoldsAs(t, o) {
        if NamesOf(inodeMap, inodeMapBlocks, |inodes|, t) {
          assert Marked(inodeMap, n);
          Clash(t, n, inodes, blocks, o, j);
        }
      }
    }

    /** `diosfs_write_bytes_to_inode` with `data` from the start of a file, whatever the file holds. Whenever the write
        ends, the image holds a tree if and only if the file was new or can be written again; then it is the tree in
        which the file holds `data` at its start. */
    method WriteFile(n: nat, data: seq<Byte>, junk: Junk) returns (outcome: Outcome)
      requires Valid() && Writable(tree, n, data) && Plausible(junk, |blocks|)
      modifies this`blockMap, this`owner, this`blocks, this`inodes, this`tree
      ensures outcome == NoSpace ==> Full()
      ensures outcome == Astray ==> !Goes(old(tree)[n], data)
      ensures outcome == Done && Goes(old(tree)[n], data) ==> Valid() && tree == Apply(old(tree), Write(n, data))
      ensures outcome == Done ==> (HoldsSome() <==> Goes(old(tree)[n], data))
    {
      ghost var good := Goes(tree[n], data);
      ghost var k := IsListed(tree, n);
      ParentInRange(tree, n, inodes, blocks, owner, k);
      var ok;
      ghost var j;
      ok, j := PutFile(n, data, junk, good);
      if !ok {
        return NoSpace;
      }
      ghost var filled := blocks;
      var found := RefreshEntry(n, data, k, junk, good);
      if good {
        assert HoldsAs(tree, owner);
      } else {
        ListsZeroStays(inodes[n], inodes[n], filled, blocks, j);
        HoldsNone(n, j);
      }
      return if found then Done else Astray;
    }

    /** What a reader of a valid image finds: each directory lists its children in order with their sizes, each
        written file reads back as its bytes, and every block in use is marked. */
    lemma ReadsAsTree()
      requires Valid()
      ensures forall n, k | 0 <= n < |tree| && tree[n].kind == Directory && 0 <= k < |tree[n].children| ::
        EntryReads(n, k)
      ensures forall n | 0 <= n < |tree| && tree[n].written :: FileReads(n)
      ensures forall n, j | 0 <= n < |tree| && 0 <= j < inodes[n].count :: BlockMarked(n, j)
    {
      forall n, k | 0 <= n < |tree| && tree[n].kind == Directory && 0 <= k < |tree[n].children|
        ensures EntryReads(n, k)
      {
        assert ChildAt(tree, n, k);
        DirectoryReadsBack(tree, n, inodes, blocks, owner, k);
      }
      forall n | 0 <= n < |tree| && tree[n].written ensures FileReads(n) {
        assert Shaped(tree[n]);
        FileReadsBack(tree, n, inodes, blocks, owner);
      }
      forall n, j | 0 <= n < |tree| && 0 <= j < inodes[n].count ensures BlockMarked(n, j) {
        assert Holds(tree, n, inodes, blocks, owner);
        RelativeBlockIsListed(inodes[n], blocks, j);
      }
    }

    ghost predicate EntryReads(n: nat, k: nat)
      reads this
    {
      && n < |tree| && n < |inodes| && k < |tree[n].children| && tree[n].children[k] < |tree| &&
           Sound(inodes[n], blocks)
      && inodes[n].size == |tree[n].children| && k / 7 < inodes[n].count <= DIRECT && inodes[n].direct[k / 7] < |blocks|
      && ReadEntry(inodes[n], blocks, k) == DirentOf(tree, tree[n].children[k])
    }

    ghost predicate FileReads(n: nat)
      reads this
    {
      && n < |tree| && n < |inodes| && Sound(inodes[n], blocks) && inodes[n].count == inodes[n].size / 1024 + 1
      && (forall i | 0 <= i < inodes[n].count :: RelativeBlock(inodes[n], blocks, i) < |blocks|)
      && ReadFile(inodes[n], blocks, 0, inodes[n].size) == tree[n].bytes
    }

    ghost predicate BlockMarked(n: nat, j: nat)
      reads this
    {
      && n < |inodes| && Sound(inodes[n], blocks) && j < inodes[n].count &&
           Marked(blockMap, RelativeBlock(inodes[n], blocks, j))
      && (inodes[n].count > DIRECT ==> Marked(blockMap, inodes[n].single))
    }

    /** Any run of steps within the limits, up to 8192 inodes, ends with the image of the tree it describes. */
    method Build(steps: seq<Step>) returns (ok: bool)
      requires Valid() && Runnable(tree, steps) && |After(tree, steps)| <= PER_BLOCK
      modifies this
      ensures ok ==> Valid() && tree == After(old(tree), steps)
      ensures !ok ==> Full() || forall n: nat | n < 8 * |inodeMap| :: Marked(inodeMap, n)
    {
      ok := true;
      var rest := steps;
      while rest != []
        invariant Valid() && Runnable(tree, rest) && After(tree, rest) == After(old(tree), steps)
        decreases |rest|
      {
        ok := Do(rest[0]);
        if !ok {
          return;
        }
        rest := rest[1..];
      }
    }

    method Do(s: Step) returns (ok: bool)
      requires Valid() && Allowed(tree, s) && |Apply(tree, s)| <= PER_BLOCK
      modifies this
      ensures ok ==> Valid() && tree == Apply(old(tree), s)
      ensures !ok ==> Full() || forall n: nat | n < 8 * |inodeMap| :: Marked(inodeMap, n)
    {
      match s
      case Create(parent, name, kind) =>
        var r := Create(parent, name, kind);
        ok := r.Some?;
      case Write(n, data) =>
        var outcome := WriteFile(n, data, Junk(seq(POINTERS, _ => 0), seq(1024, _ => 0), None));
        ok := outcome == Done;
    }
  }

  /** The first entry ever written goes to block 0, which stays with the root directory. */
  lemma RootIsFirst(t: seq<Object>, d: nat, inodes: seq<Inode>, inode': Inode, blocks: seq<Content>,
                    blocks': seq<Content>,
                    owner: seq<Owner>, owner': seq<Owner>, b: nat, entry: Dirent)
    requires HoldsTree(t, inodes, blocks, owner) && d < |t| && t[d].kind == Directory && d < |inodes|
    requires Appended(d, inodes[d], inode', blocks, blocks', owner, owner', b, entry)
    requires owner' != owner ==> forall c | 0 <= c < b :: !owner[c].Free?
    ensures RootFirst(owner')
  {
    if |t| == 1 {
      if t[0].children != [] {
        var first := ChildAt(t, 0, 0);
        assert false;
      }
      assert Holds(t, 0, inodes, blocks, owner) && BlockList(inodes[0], blocks) == [];
      assert owner[0].Free?;
    }
  }

  lemma Created(t: seq<Object>, s: Step, inodes: seq<Inode>, inodes': seq<Inode>, blocks: seq<Content>,
                blocks': seq<Content>,
                owner: seq<Owner>, owner': seq<Owner>, b: nat)
    requires s.Create? && Allowed(t, s) && HoldsTree(t, inodes, blocks, owner) && |t| < |inodes| == |inodes'|
    requires Appended(s.parent, inodes[s.parent], inodes'[s.parent], blocks, blocks', owner, owner', b,
      DirentOf(Apply(t, s), |t|))
    requires owner' != owner ==> forall c | 0 <= c < b :: !owner[c].Free?
    requires forall n | 0 <= n < |t| && n != s.parent :: inodes'[n] == inodes[n]
    requires inodes'[|t|] == Inode(s.kind, s.name, s.parent, 0, 0, seq(DIRECT, i => 0), 0)
    ensures HoldsTree(Apply(t, s), inodes', blocks', owner')
  {
    var u, p := Apply(t, s), s.parent;
    CreateKeeps(t, s);
    ChildrenInTree(t);
    RootIsFirst(t, p, inodes, inodes'[p], blocks, blocks', owner, owner', b, DirentOf(u, |t|));
    AppendHolds(t, s, p, inodes, inodes', blocks, blocks', owner, owner', b);
    forall n | 0 <= n < |u| ensures Holds(u, n, inodes', blocks', owner') {
      if n == |t| {
        BareHolds(u, n, inodes', blocks', owner');
      } else if n != p {
        OthersHold(t, u, n, inodes, inodes', blocks, blocks', owner, owner', p);
      }
    }
  }

  /** A new object that owns no blocks. */
  lemma BareHolds(u: seq<Object>, n: nat, inodes: seq<Inode>, blocks: seq<Content>, owner: seq<Owner>)
    requires n < |u| && n < |inodes| && |owner| == |blocks|
    requires u[n] == Object(u[n].kind, u[n].name, u[n].parent, [], false, [])
    requires inodes[n] == Inode(u[n].kind, u[n].name, u[n].parent, 0, 0, seq(DIRECT, i => 0), 0)
    requires forall k | 0 <= k < |owner| && !owner[k].Free? :: owner[k].inode != n
    ensures Holds(u, n, inodes, blocks, owner)
  {
  }

  lemma OthersHold(t: seq<Object>, u: seq<Object>, n: nat, inodes: seq<Inode>, inodes': seq<Inode>,
                   blocks: seq<Content>, blocks': seq<Content>,
                   owner: seq<Owner>, owner': seq<Owner>, p: nat)
    requires Holds(t, n, inodes, blocks, owner) && n < |u| && n < |inodes'| && u[n] == t[n] &&
      inodes'[n] == inodes[n] && n != p
    requires OnlyFor(p, blocks, blocks', owner, owner')
    requires forall i | 0 <= i < |t[n].children| ::
      t[n].children[i] < |t| && t[n].children[i] < |u| && DirentOf(u, t[n].children[i]) == DirentOf(t, t[n].children[i])
    ensures Holds(u, n, inodes', blocks', owner')
  {
    Untouched(t, u, n, inodes, inodes', blocks, blocks', owner, owner');
  }
}
