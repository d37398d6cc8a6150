/** What an image should hold: a tree of directories and files; and what it means for the inode table and the
    data blocks to hold it. A block is kept in the form it was written in: 1024 file bytes, 7 directory entries
    or 128 block pointers. */
module ImageTree {
  import opened Prelude
  import opened Bytes

  const DIRECT: nat := 10           // block numbers in an inode
  const POINTERS: nat := 128        // block numbers in an indirection block
  const MAX_BLOCKS: nat := DIRECT + POINTERS
  const MAX_CHILDREN: nat := 70

  datatype Kind = Directory | Regular
  datatype Inode = Inode(kind: Kind, name: string, parent: nat, size: nat, count: nat, direct: seq<nat>, single: nat)
  datatype Dirent = Dirent(name: string, inode: nat, parent: nat, kind: Kind, size: nat)
  datatype Content = Blank | Data(bytes: seq<Byte>) | Entries(slots: seq<Dirent>) | Pointers(numbers: seq<nat>)

  // ------------------------------------------------------------------ the tree

  /** Inode numbers are handed out in order, so the tree is the sequence of its objects. */
  datatype Object = Object(kind: Kind, name: string, parent: nat, children: seq<nat>, written: bool, bytes: seq<Byte>)

  const ROOT := Object(Directory, "/", 0, [], false, [])

  function DirentOf(t: seq<Object>, c: nat): Dirent
    requires c < |t|
  {
    Dirent(t[c].name, c, t[c].parent, t[c].kind, |t[c].bytes|)
  }

  /** Child `i` of directory `d` has `d` as its parent. */
  predicate ChildAt(t: seq<Object>, d: nat, i: nat)
  {
    d < |t| && i < |t[d].children| && 0 < t[d].children[i] < |t| && t[t[d].children[i]].parent == d
  }

  /** The parent of `n` lists it. */
  predicate Listed(t: seq<Object>, n: nat)
  {
    n < |t| && t[n].parent < |t| && n in t[t[n].parent].children
  }

  ghost predicate ChildrenDistinct(o: Object)
  {
    forall i, j | 0 <= i < j < |o.children| :: o.children[i] != o.children[j]
  }

  /** Files have no children, directories no bytes, and what was not written is empty. */
  predicate Shaped(o: Object)
  {
    && (if o.kind == Directory then o.bytes == [] && !o.written else o.children == [])
    && (!o.written ==> o.bytes == [])
  }

  ghost predicate WellFormed(t: seq<Object>)
  {
    && (forall d, i {:trigger ChildAt(t, d, i)} | 0 <= d < |t| && 0 <= i < |t[d].children| :: ChildAt(t, d, i))
    && (forall n {:trigger Listed(t, n)} | 0 < n < |t| :: Listed(t, n))
    && (forall n | 0 <= n < |t| :: ChildrenDistinct(t[n]) && Shaped(t[n]))
  }

  datatype Step = Create(parent: nat, name: string, kind: Kind) | Write(inode: nat, data: seq<Byte>)

  /** A write puts `data` at the start of the file; bytes behind it stay. */
  function Overlaid(was: seq<Byte>, data: seq<Byte>): (r: seq<Byte>)
    ensures |r| == if |data| < |was| then |was| else |data|
  {
    data + if |data| < |was| then was[|data|..] else []
  }

  /** A file then reads as `data` exactly if it was not longer. */
  lemma OverlaidIsData(was: seq<Byte>, data: seq<Byte>)
    ensures Overlaid(was, data) == data <==> |was| <= |data|
  {
    if |was| <= |data| { assert data + [] == data; }
  }

  /** When a file can be written again: it is not empty, and it does not gain blocks once it has an indirection
      block. */
  predicate Rewritable(bytes: seq<Byte>, data: seq<Byte>)
  {
    bytes != [] && (|data| / 1024 <= |bytes| / 1024 || |bytes| / 1024 < DIRECT)
  }

  /** A write goes well: the file is new, or can be written again. */
  predicate Goes(o: Object, data: seq<Byte>)
  {
    o.written ==> Rewritable(o.bytes, data)
  }

  /** A write of a file within the format's limits. */
  predicate Writable(t: seq<Object>, n: nat, data: seq<Byte>)
  {
    n < |t| && t[n].kind == Regular && |data| / 1024 + 1 <= MAX_BLOCKS
  }

  /** The steps within the format's limits that go well. */
  predicate Allowed(t: seq<Object>, s: Step)
  {
    match s
    case Create(parent, name, _) => parent < |t| && t[parent].kind == Directory &&
      |t[parent].children| < MAX_CHILDREN && |name| < 128
    case Write(n, data) => Writable(t, n, data) && Goes(t[n], data)
  }

  function Apply(t: seq<Object>, s: Step): (u: seq<Object>)
    requires Allowed(t, s)
    ensures |u| == if s.Create? then |t| + 1 else |t|
  {
    match s
    case Create(parent, name, kind) =>
      t[parent := t[parent].(children := t[parent].children + [|t|])] + [Object(kind, name, parent, [], false, [])]
    case Write(n, data) => t[n := t[n].(written := true, bytes := Overlaid(t[n].bytes, data))]
  }

  lemma CreateKeeps(t: seq<Object>, s: Step)
    requires WellFormed(t) && Allowed(t, s) && s.Create?
    ensures WellFormed(Apply(t, s))
  {
    var u, p := Apply(t, s), s.parent;
    assert u[|t|] == Object(s.kind, s.name, p, [], false, []);
    assert u[p] == t[p].(children := t[p].children + [|t|]);
    forall n | 0 < n < |u| ensures Listed(u, n) {
      if n == |t| {
        assert u[p].children[|t[p].children|] == n;
      } else {
        assert Listed(t, n);
      }
    }
    forall d, i | 0 <= d < |u| && 0 <= i < |u[d].children| ensures ChildAt(u, d, i) {
      if d < |t| && i < |t[d].children| {
        assert ChildAt(t, d, i);
      }
    }
    assert ChildrenDistinct(u[p]) by {
      forall i | 0 <= i < |t[p].children| ensures t[p].children[i] < |t| {
        assert ChildAt(t, p, i);
      }
    }
  }

  lemma WriteKeeps(t: seq<Object>, s: Step)
    requires WellFormed(t) && Allowed(t, s) && s.Write?
    ensures WellFormed(Apply(t, s))
  {
    var u := Apply(t, s);
    assert forall n | 0 <= n < |t| ::
      u[n].children == t[n].children && u[n].parent == t[n].parent && u[n].kind == t[n].kind;
    forall n | 0 < n < |u| ensures Listed(u, n) {
      assert Listed(t, n);
    }
    forall d, i | 0 <= d < |u| && 0 <= i < |u[d].children| ensures ChildAt(u, d, i) {
      assert ChildAt(t, d, i);
    }
  }

  predicate Runnable(t: seq<Object>, steps: seq<Step>)
    decreases |steps|
  {
    steps == [] || (Allowed(t, steps[0]) && Runnable(Apply(t, steps[0]), steps[1..]))
  }

  function After(t: seq<Object>, steps: seq<Step>): (u: seq<Object>)
    requires Runnable(t, steps)
    ensures |u| >= |t|
    decreases |steps|
  {
    if steps == [] then t else After(Apply(t, steps[0]), steps[1..])
  }

  // ------------------------------------------------------------------ ownership of blocks

  datatype Owner = Free | Slot(inode: nat, index: nat) | Meta(inode: nat)

  predicate OwnedBy(o: Owner, n: nat)
  {
    !o.Free? && o.inode == n
  }

  /** `list` names the blocks of inode `n` in order and `meta` its indirection blocks: each is labelled so, and no
      other block is labelled with `n`. */
  ghost predicate OwnsList(n: nat, list: seq<nat>, meta: set<nat>, owner: seq<Owner>)
  {
    && (forall j | 0 <= j < |list| :: list[j] < |owner| && owner[list[j]] == Slot(n, j))
    && (forall b | b in meta :: b < |owner| && owner[b] == Meta(n))
    && (forall b | 0 <= b < |owner| && OwnedBy(owner[b], n) ::
          match owner[b]
          case Slot(_, j) => j < |list| && list[j] == b
          case _ => b in meta)
  }

  lemma OwnsNext(n: nat, list: seq<nat>, meta: set<nat>, owner: seq<Owner>, b: nat)
    requires OwnsList(n, list, meta, owner) && b < |owner| && owner[b].Free?
    ensures OwnsList(n, list + [b], meta, owner[b := Slot(n, |list|)])
  {
  }

  lemma OwnsMeta(n: nat, list: seq<nat>, owner: seq<Owner>, b: nat)
    requires OwnsList(n, list, {}, owner) && b < |owner| && owner[b].Free?
    ensures OwnsList(n, list, {b}, owner[b := Meta(n)])
  {
  }

  // ------------------------------------------------------------------ an inode's blocks

  function AsPointers(c: Content): (p: seq<nat>)
    ensures |p| == POINTERS
  {
    if c.Pointers? && |c.numbers| == POINTERS then c.numbers else seq(POINTERS, _ => 0)
  }

  const NO_DIRENT := Dirent("", 0, 0, Directory, 0)

  function AsEntries(c: Content): (s: seq<Dirent>)
    ensures |s| == 7
  {
    if c.Entries? && |c.slots| == 7 then c.slots else seq(7, _ => NO_DIRENT)
  }

  function AsBytes(c: Content): (s: seq<Byte>)
    ensures |s| == 1024
  {
    if c.Data? && |c.bytes| == 1024 then c.bytes else seq(1024, _ => 0)
  }

  predicate Sound(inode: Inode, blocks: seq<Content>)
  {
    && |inode.direct| == DIRECT && inode.count <= MAX_BLOCKS
    && (forall j | inode.count <= j < DIRECT :: inode.direct[j] == 0)
    && (if inode.count <= DIRECT then inode.single == 0 else inode.single < |blocks| && blocks[inode.single].Pointers?)
    && (inode.count > DIRECT ==> NoneBehind(AsPointers(blocks[inode.single]), inode.count - DIRECT))
  }

  /** The numbers from `from` on are 0. */
  predicate NoneBehind(numbers: seq<nat>, from: nat)
  {
    forall j | from <= j < |numbers| :: numbers[j] == 0
  }

  /** The blocks of an inode in order. */
  function BlockList(inode: Inode, blocks: seq<Content>): (list: seq<nat>)
    requires Sound(inode, blocks)
    ensures |list| == inode.count
  {
    if inode.count <= DIRECT then inode.direct[..inode.count]
    else inode.direct + AsPointers(blocks[inode.single])[..inode.count - DIRECT]
  }

  function MetaOf(inode: Inode): set<nat>
  {
    if inode.count <= DIRECT then {} else {inode.single}
  }

  /** `diosfs_get_relative_block_number_from_file` for the two levels in use. */
  function RelativeBlock(inode: Inode, blocks: seq<Content>, j: nat): nat
    requires |inode.direct| == DIRECT && (j >= DIRECT ==> inode.single < |blocks|)
  {
    if j < DIRECT then inode.direct[j] else AsPointers(blocks[inode.single])[(j - DIRECT) % POINTERS]
  }

  lemma RelativeBlockIsListed(inode: Inode, blocks: seq<Content>, j: nat)
    requires Sound(inode, blocks) && j < inode.count
    ensures RelativeBlock(inode, blocks, j) == BlockList(inode, blocks)[j]
  {
  }

  // ------------------------------------------------------------------ an object in the image

  function Chunk(bytes: seq<Byte>, j: nat): seq<Byte>
  {
    bytes[Min(1024 * j, |bytes|)..Min(1024 * (j + 1), |bytes|)]
  }

  /** Writing the part of `data` for block `j` over what the block holds of `was`. */
  lemma ChunkOverlaid(was: seq<Byte>, data: seq<Byte>, j: nat, block: seq<Byte>)
    requires |block| == 1024 && Chunk(was, j) <= block && 1024 * j <= |data|
    ensures var size := Min(1024, |data| - 1024 * j);
      Chunk(Overlaid(was, data), j) <= data[1024 * j..1024 * j + size] + block[size..]
  {
    var size := Min(1024, |data| - 1024 * j);
    var r, c := data[1024 * j..1024 * j + size] + block[size..], Chunk(Overlaid(was, data), j);
    forall i | 0 <= i < |c| ensures r[i] == c[i] {
      if i >= size {
        assert Chunk(was, j)[i] == was[1024 * j + i] == block[i];
      }
    }
  }

  /** Blocks wholly behind `data` keep what they hold. */
  lemma ChunkBehind(was: seq<Byte>, data: seq<Byte>, j: nat)
    requires |data| / 1024 < j
    ensures Chunk(Overlaid(was, data), j) == Chunk(was, j)
  {
    if |data| < |was| {
      assert Overlaid(was, data)[|data|..] == was[|data|..];
      var lo, hi := Min(1024 * j, |was|), Min(1024 * (j + 1), |was|);
      assert forall i | lo <= i < hi :: Overlaid(was, data)[i] == was[i];
    }
  }

  ghost predicate HasChunk(c: Content, bytes: seq<Byte>, j: nat)
  {
    c.Data? && |c.bytes| == 1024 && Chunk(bytes, j) <= c.bytes
  }

  ghost predicate FileHolds(o: Object, inode: Inode, blocks: seq<Content>, list: seq<nat>)
  {
    && inode.size == |o.bytes| && inode.count == (if o.written then |o.bytes| / 1024 + 1 else 0)
    && forall j | 0 <= j < |list| :: list[j] < |blocks| && HasChunk(blocks[list[j]], o.bytes, j)
  }

  ghost predicate DirectoryHolds(t: seq<Object>, o: Object, inode: Inode, blocks: seq<Content>, list: seq<nat>)
  {
    && inode.size == |o.children| && 7 * inode.count - 7 < inode.size <= 7 * inode.count && inode.count <= DIRECT
    && (forall j | 0 <= j < |list| :: list[j] < |blocks| && blocks[list[j]].Entries?)
    && (forall j, e | 0 <= j < |list| && 0 <= e < 7 && 7 * j + e < |o.children| ::
         SlotHolds(t, o, blocks[list[j]], j, e))
  }

  predicate SlotHolds(t: seq<Object>, o: Object, c: Content, j: nat, e: nat)
  {
    7 * j + e < |o.children| && o.children[7 * j + e] < |t| && e < 7 &&
      AsEntries(c)[e] == DirentOf(t, o.children[7 * j + e])
  }

  ghost predicate Holds(t: seq<Object>, n: nat, inodes: seq<Inode>, blocks: seq<Content>, owner: seq<Owner>)
  {
    && n < |t| && n < |inodes| && |owner| == |blocks|
    && var o, inode := t[n], inodes[n];
       && inode.kind == o.kind && inode.name == o.name && inode.parent == o.parent && Sound(inode, blocks)
       && OwnsList(n, BlockList(inode, blocks), MetaOf(inode), owner)
       && (if o.kind == Directory then DirectoryHolds(t, o, inode, blocks, BlockList(inode, blocks))
           else FileHolds(o, inode, blocks, BlockList(inode, blocks)))
  }

  /** An object does not notice changes to blocks it does not own. */
  lemma Untouched(t: seq<Object>, u: seq<Object>, n: nat, inodes: seq<Inode>, inodes': seq<Inode>,
                  blocks: seq<Content>, blocks': seq<Content>, owner: seq<Owner>, owner': seq<Owner>)
    requires Holds(t, n, inodes, blocks, owner) && n < |u| && n < |inodes'| && u[n] == t[n] && inodes'[n] == inodes[n]
    requires SameFor(n, blocks, blocks', owner, owner')
    requires forall i | 0 <= i < |t[n].children| ::
      t[n].children[i] < |t| && t[n].children[i] < |u| && DirentOf(u, t[n].children[i]) == DirentOf(t, t[n].children[i])
    ensures Holds(u, n, inodes', blocks', owner')
  {
    var inode := inodes[n];
    var list := BlockList(inode, blocks);
    if inode.count > DIRECT {
      assert inode.single in MetaOf(inode);
      assert blocks'[inode.single] == blocks[inode.single];
    }
    assert BlockList(inode, blocks') == list;
    forall j | 0 <= j < |list| ensures blocks'[list[j]] == blocks[list[j]] && owner'[list[j]] == owner[list[j]] {
    }
    if t[n].kind == Directory {
      forall j, e | 0 <= j < |list| && 0 <= e < 7 && 7 * j + e < |t[n].children|
        ensures SlotHolds(u, u[n], blocks'[list[j]], j, e)
      {
        assert SlotHolds(t, t[n], blocks[list[j]], j, e);
      }
    }
  }

  ghost predicate SameFor(n: nat, blocks: seq<Content>, blocks': seq<Content>, owner: seq<Owner>, owner': seq<Owner>)
  {
    && |owner| == |blocks| == |owner'| == |blocks'|
    && (forall b | 0 <= b < |owner| && OwnedBy(owner[b], n) :: owner'[b] == owner[b] && blocks'[b] == blocks[b])
    && (forall b | 0 <= b < |owner| && OwnedBy(owner'[b], n) :: owner[b] == owner'[b])
  }

  // ------------------------------------------------------------------ reading the image

  /** Entry `k` of a directory, as a reader finds it. */
  function ReadEntry(inode: Inode, blocks: seq<Content>, k: nat): Dirent
    requires Sound(inode, blocks) && k / 7 < inode.count <= DIRECT && inode.direct[k / 7] < |blocks|
  {
    AsEntries(blocks[inode.direct[k / 7]])[k % 7]
  }

  /** The first `n` bytes from block `j` on, through the block lookup. */
  function ReadFile(inode: Inode, blocks: seq<Content>, j: nat, n: nat): seq<Byte>
    requires Sound(inode, blocks) && (n > 0 ==> j + (n - 1) / 1024 < inode.count)
    requires forall i | 0 <= i < inode.count :: RelativeBlock(inode, blocks, i) < |blocks|
    decreases n
  {
    if n == 0 then []
    else if n <= 1024 then AsBytes(blocks[RelativeBlock(inode, blocks, j)])[..n]
    else AsBytes(blocks[RelativeBlock(inode, blocks, j)]) + ReadFile(inode, blocks, j + 1, n - 1024)
  }

  lemma ChunkSplit(bytes: seq<Byte>, j: nat)
    requires 1024 * j <= |bytes|
    ensures 1024 * (j + 1) <= |bytes| ==>
      bytes[1024 * j..] == Chunk(bytes, j) + bytes[1024 * (j + 1)..] && |Chunk(bytes, j)| == 1024
    ensures 1024 * (j + 1) >= |bytes| ==> bytes[1024 * j..] == Chunk(bytes, j)
  {
  }

  lemma {:induction false} FileReadsBackFrom(o: Object, inode: Inode, blocks: seq<Content>, j: nat)
    requires Sound(inode, blocks) && FileHolds(o, inode, blocks, BlockList(inode, blocks)) && 1024 * j <= |o.bytes|
    requires forall i | 0 <= i < inode.count :: RelativeBlock(inode, blocks, i) < |blocks|
    requires o.written
    ensures ReadFile(inode, blocks, j, |o.bytes| - 1024 * j) == o.bytes[1024 * j..]
    decreases |o.bytes| - 1024 * j
  {
    var n := |o.bytes| - 1024 * j;
    if n > 0 {
      RelativeBlockIsListed(inode, blocks, j);
      var c := blocks[BlockList(inode, blocks)[j]];
      assert HasChunk(c, o.bytes, j);
      ChunkSplit(o.bytes, j);
      if n > 1024 {
        FileReadsBackFrom(o, inode, blocks, j + 1);
        assert Chunk(o.bytes, j) == c.bytes;
      }
    }
  }

  /** A written file reads back as the bytes that were written. */
  lemma FileReadsBack(t: seq<Object>, n: nat, inodes: seq<Inode>, blocks: seq<Content>, owner: seq<Owner>)
    requires Holds(t, n, inodes, blocks, owner) && t[n].kind == Regular && t[n].written
    ensures forall i | 0 <= i < inodes[n].count :: RelativeBlock(inodes[n], blocks, i) < |blocks|
    ensures ReadFile(inodes[n], blocks, 0, inodes[n].size) == t[n].bytes
  {
    forall i | 0 <= i < inodes[n].count ensures RelativeBlock(inodes[n], blocks, i) < |blocks| {
      RelativeBlockIsListed(inodes[n], blocks, i);
    }
    FileReadsBackFrom(t[n], inodes[n], blocks, 0);
  }

  /** A directory lists exactly its children, in order, with their present sizes. */
  lemma DirectoryReadsBack(t: seq<Object>, n: nat, inodes: seq<Inode>, blocks: seq<Content>, owner: seq<Owner>, k: nat)
    requires Holds(t, n, inodes, blocks, owner) && t[n].kind == Directory && k < |t[n].children| &&
      t[n].children[k] < |t|
    ensures inodes[n].size == |t[n].children| && k / 7 < inodes[n].count <= DIRECT && inodes[n].direct[k / 7] < |blocks|
    ensures ReadEntry(inodes[n], blocks, k) == DirentOf(t, t[n].children[k])
  {
    var list := BlockList(inodes[n], blocks);
    var j, e := k / 7, k % 7;
    assert j < |list| && list[j] == inodes[n].direct[j];
    assert SlotHolds(t, t[n], blocks[list[j]], j, e);
  }

  /** No block belongs to two places. */
  lemma BlocksAreDistinct(t: seq<Object>, n: nat, m: nat, inodes: seq<Inode>, blocks: seq<Content>, owner: seq<Owner>,
                          i: nat, j: nat)
    requires Holds(t, n, inodes, blocks, owner) && Holds(t, m, inodes, blocks, owner)
    requires i < inodes[n].count && j < inodes[m].count && (n != m || i != j)
    ensures RelativeBlock(inodes[n], blocks, i) != RelativeBlock(inodes[m], blocks, j)
    ensures inodes[n].count > DIRECT ==> inodes[n].single != RelativeBlock(inodes[m], blocks, j)
  {
    RelativeBlockIsListed(inodes[n], blocks, i);
    RelativeBlockIsListed(inodes[m], blocks, j);
    if inodes[n].count > DIRECT { assert inodes[n].single in MetaOf(inodes[n]); }
  }
}
