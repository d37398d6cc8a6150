/** The buddy allocator as the kernel keeps it: block structures linked by `next` pointers, a tree that holds
    pointers to free blocks by order, and a table from start address to used block. Every operation is
    shown to do to the linked blocks what its counterpart does to the chain. */
module BuddyHeap {
  import opened Prelude
  import opened BuddyPool
  import opened BuddyRuns
  import opened PowerOfTwo

  /** A block structure. One that returns to the spare list and is used again counts as a new node, so the
      start address and the first-block flag of a node do not change. */
  class Node {
    const start: nat
    const first: bool
    var order: nat
    var free: bool
    var inTree: bool
    var next: Node?

    constructor (start: nat, order: nat, first: bool, inTree: bool, next: Node?)
      ensures this.start == start && this.order == order && this.first == first && this.inTree == inTree
      ensures free && this.next == next
    {
      this.start, this.order, this.first := start, order, first;
      this.free, this.inTree, this.next := true, inTree, next;
    }

    ghost function Value(): Block
      reads this
    {
      Block(start, order, free, first, inTree)
    }
  }

  /** The linked chain of a range. */
  class Chain {
    ghost var nodes: seq<Node>       // the structures in chain order
    ghost var blocks: seq<Block>     // and their contents
    const end: Node                  // the unused pool entry behind the last block

    ghost predicate Valid()
      reads this, nodes
    {
      && |blocks| == |nodes| && end !in nodes
      && (forall i, j | 0 <= i < j < |nodes| :: nodes[i] != nodes[j])
      && (forall i {:trigger nodes[i].next} | 0 <= i < |nodes| ::
           nodes[i].next == if i + 1 < |nodes| then nodes[i + 1] else end)
      && (forall i | 0 <= i < |nodes| :: nodes[i].Value() == blocks[i])
    }

    constructor (end: Node, ghost nodes: seq<Node>, ghost blocks: seq<Block>)
      requires |blocks| == |nodes| && end !in nodes
      requires forall i, j | 0 <= i < j < |nodes| :: nodes[i] != nodes[j]
      requires forall i {:trigger nodes[i].next} | 0 <= i < |nodes| ::
        nodes[i].next == if i + 1 < |nodes| then nodes[i + 1] else end
      requires forall i | 0 <= i < |nodes| :: nodes[i].Value() == blocks[i]
      ensures Valid() && this.end == end && this.nodes == nodes && this.blocks == blocks
    {
      this.end, this.nodes, this.blocks := end, nodes, blocks;
    }

    /** Two nodes of the chain with one start are one node. */
    lemma NodeIsUnique(lo: nat, hi: nat, k: nat, n: Node)
      requires Valid() && Tiles(blocks, lo, hi) && k < |nodes| && n in nodes && n.start == nodes[k].start
      ensures n == nodes[k]
    {
      var i :| 0 <= i < |nodes| && nodes[i] == n;
      assert nodes[i].Value() == blocks[i] && nodes[k].Value() == blocks[k];
      if i < k { StartsIncrease(blocks, lo, hi, i, k); }
      if k < i { StartsIncrease(blocks, lo, hi, k, i); }
    }

    lemma Inserted(s: seq<Node>, k: nat, x: Node, t: seq<Node>)
      requires (forall i, j | 0 <= i < j < |s| :: s[i] != s[j]) && x !in s && k < |s| &&
        t == s[..k + 1] + [x] + s[k + 1..]
      ensures forall i, j | 0 <= i < j < |t| :: t[i] != t[j]
      ensures forall i | 0 <= i < |t| :: t[i] == if i <= k then s[i] else if i == k + 1 then x else s[i - 1]
    {
    }

    /** Links a new node for the upper half behind `block`. */
    method Split(block: Node, ghost k: nat) returns (upper: Node)
      requires Valid() && k < |nodes| && nodes[k] == block && block.order > 0
      modifies this`nodes, this`blocks, block
      ensures Valid() && fresh(upper) && nodes == old(nodes)[..k + 1] + [upper] + old(nodes)[k + 1..]
      ensures blocks == Splice(old(blocks), k, 1, [Lower(old(blocks)[k]), Upper(old(blocks)[k])])
      ensures upper.start == Upper(old(blocks)[k]).start
    {
      var o := block.order - 1;
      upper := new Node(block.start + Pow2(o), o, false, true, block.next);
      block.next := upper;
      block.order := o;
      nodes := nodes[..k + 1] + [upper] + nodes[k + 1..];
      Inserted(old(nodes), k, upper, nodes);
      ghost var b := blocks[k];
      blocks := Splice(blocks, k, 1, [Lower(b), Upper(b)]);
      forall i {:trigger nodes[i].next} | 0 <= i < |nodes|
        ensures nodes[i].next == if i + 1 < |nodes| then nodes[i + 1] else end
      {
        if i < k {
          assert old(nodes[i].next) == old(nodes)[i + 1];
        } else if i > k {
          assert old(nodes[i - 1].next) == if i < |old(nodes)| then old(nodes)[i] else end;
        }
      }
      forall i | 0 <= i < |nodes| ensures nodes[i].Value() == blocks[i] {
        if i < k {
          assert nodes[i] == old(nodes)[i] && old(nodes[i].Value()) == old(blocks)[i];
        } else if i > k + 1 {
          assert nodes[i] == old(nodes)[i - 1] && old(nodes[i - 1].Value()) == old(blocks)[i - 1];
        }
      }
    }

    /** Unlinks the node behind `block`, whose place `block` takes over. */
    method Absorb(block: Node, ghost k: nat) returns (next: Node)
      requires Valid() && k + 1 < |nodes| && nodes[k] == block
      modifies this`nodes, this`blocks, block
      ensures Valid() && next == old(nodes)[k + 1] && k < |nodes| && nodes[k] == block
      ensures forall n :: n in nodes <==> n in old(nodes) && n != next
      ensures blocks == Splice(old(blocks), k, 2, [old(blocks)[k].(order := old(blocks)[k].order + 1)])
    {
      assert nodes[k].next == nodes[k + 1];
      next := block.next;
      assert nodes[k + 1].next == next.next;
      block.next := next.next;
      block.order := block.order + 1;
      ghost var was := nodes;
      nodes := nodes[..k + 1] + nodes[k + 2..];
      blocks := Splice(blocks, k, 2, [blocks[k].(order := blocks[k].order + 1)]);
      assert was == was[..k + 1] + [next] + was[k + 2..];
    }

    /** Sets the marks of `block`. */
    method Mark(block: Node, free: bool, inTree: bool, ghost k: nat)
      requires Valid() && k < |nodes| && nodes[k] == block
      modifies this`blocks, block`free, block`inTree
      ensures Valid() && blocks == Splice(old(blocks), k, 1, [old(blocks)[k].(free := free, inTree := inTree)])
    {
      block.free := free;
      block.inTree := inTree;
      blocks := Splice(blocks, k, 1, [blocks[k].(free := free, inTree := inTree)]);
    }
  }

  ghost function Starts(s: set<Node>): set<nat>
  {
    set n | n in s :: n.start
  }

  lemma StartsAdd(s: set<Node>, n: Node)
    ensures Starts(s + {n}) == Starts(s) + {n.start}
  {
    assert forall x | x in Starts(s) + {n.start} :: x in Starts(s + {n}) by {
      assert n in s + {n};
      assert forall m | m in s :: m in s + {n};
    }
  }

  lemma StartsRemove(s: set<Node>, n: Node)
    requires forall m | m in s && m.start == n.start :: m == n
    ensures Starts(s - {n}) == Starts(s) - {n.start}
  {
    forall x | x in Starts(s) - {n.start} ensures x in Starts(s - {n}) {
      var m :| m in s && m.start == x;
      assert m in s - {n};
    }
  }

  lemma RequestIsWord(pages: nat)
    requires pages <= REGION
    ensures IsWord(pages)
  {
    RegionIsMaxOrder();
    SmallIsWord(pages, MAX_ORDER);
  }

  /** A range with its tree, its table of used blocks and its page counter. */
  class Range {
    const chain: Chain
    var buckets: seq<set<Node>>
    var table: map<nat, Node>
    var total: int
    ghost var pool: Pool             // the same as a value

    ghost predicate Valid()
      reads this, chain, chain.nodes
    {
      && chain.Valid() && pool.chain == chain.blocks
      && |buckets| == |pool.buckets| == MAX_ORDER + 1
      && (forall o | 0 <= o <= MAX_ORDER :: Starts(buckets[o]) == pool.buckets[o])
      && (forall o, n | 0 <= o <= MAX_ORDER && n in buckets[o] :: n in chain.nodes)
      && pool.used == table.Keys && (forall a | a in table :: table[a] in chain.nodes && table[a].start == a)
      && pool.total == total
    }

    /** Takes a block out of the tree and clears its flag. */
    method Take(block: Node, ghost k: nat, ghost lo: nat, ghost hi: nat)
      requires Valid() && Tiles(pool.chain, lo, hi) && k < |chain.nodes| && chain.nodes[k] == block &&
        block.order <= MAX_ORDER
      modifies this`buckets, this`pool, chain`blocks, block`free, block`inTree
      ensures Valid() && pool == TakeAt(old(pool), k)
    {
      assert block.Value() == pool.chain[k];
      forall m | m in buckets[block.order] && m.start == block.start ensures m == block {
        chain.NodeIsUnique(lo, hi, k, m);
      }
      StartsRemove(buckets[block.order], block);
      chain.Mark(block, block.free, false, k);
      buckets := buckets[block.order := buckets[block.order] - {block}];
      pool := TakeAt(pool, k);
    }

    /** Puts a block into the tree and sets its flag. */
    method File(block: Node, ghost k: nat)
      requires Valid() && k < |chain.nodes| && chain.nodes[k] == block && block.order <= MAX_ORDER
      modifies this`buckets, this`pool, chain`blocks, block`free, block`inTree
      ensures Valid() && pool == FileAt(old(pool), k)
    {
      assert block.Value() == pool.chain[k];
      StartsAdd(buckets[block.order], block);
      chain.Mark(block, block.free, true, k);
      buckets := buckets[block.order := buckets[block.order] + {block}];
      pool := FileAt(pool, k);
    }

    /** `buddy_split`: the caller has taken the block out of the tree. */
    method Split(block: Node, ghost k: nat)
      requires Valid() && k < |chain.nodes| && chain.nodes[k] == block && 0 < block.order <= MAX_ORDER
      modifies this`buckets, this`pool, chain, block
      ensures Valid() && pool == SplitAt(old(pool), k)
      ensures k < |chain.nodes| && chain.nodes[k] == block
      ensures forall n | n in chain.nodes :: n in old(chain.nodes) || fresh(n)
    {
      assert block.Value() == pool.chain[k];
      var o := block.order - 1;
      var upper := chain.Split(block, k);
      StartsAdd(buckets[o], upper);
      buckets := buckets[o := buckets[o] + {upper}];
      pool := SplitAt(pool, k);
      assert forall n | n in old(chain.nodes) :: n in chain.nodes;
    }

    /** Hands a block out: into the table, used, counted. */
    method Book(block: Node, ghost k: nat)
      requires Valid() && k < |chain.nodes| && chain.nodes[k] == block
      modifies this`table, this`total, this`pool, chain`blocks, block`free, block`inTree
      ensures Valid() && pool == BookAt(old(pool), k)
    {
      assert block.Value() == pool.chain[k];
      table := table[block.start := block];
      chain.Mark(block, false, block.inTree, k);
      total := total + Pow2(block.order);
      pool := BookAt(pool, k);
    }

    method FirstFilled(order: nat) returns (index: nat)
      requires Valid() && order <= MAX_ORDER
      ensures order <= index <= MAX_ORDER + 1 && (index <= MAX_ORDER ==> buckets[index] != {})
      ensures forall o | order <= o < index :: pool.buckets[o] == {}
    {
      index := order;
      while index <= MAX_ORDER && buckets[index] == {}
        invariant order <= index <= MAX_ORDER + 1
        invariant forall o | order <= o < index :: pool.buckets[o] == {}
      {
        assert pool.buckets[index] == Starts(buckets[index]) == {};
        index := index + 1;
      }
    }

    /** The search of `buddy_alloc`: the first order from the request's on whose bucket is not empty. */
    method FindBlock(pages: nat, ghost lo: nat, ghost regions: nat) returns (block: Node?, ghost k: nat)
      requires Valid() && Inv(pool, lo, regions) && IsWord(pages)
      ensures block == null ==> forall j :: !Offered(pool, pages, j)
      ensures block != null ==> k < |chain.nodes| && chain.nodes[k] == block && Offered(pool, pages, k)
    {
      block, k := null, 0;
      var order := RequestOrder(pages);
      if order.None? {
        return;
      }
      var index := FirstFilled(order.value);
      if index <= MAX_ORDER {
        var found: Node :| found in buckets[index];
        assert found in chain.nodes;
        k :| 0 <= k < |chain.nodes| && chain.nodes[k] == found;
        IsOffered(pages, index, found, k, lo, regions);
        block := found;
      }
    }

    /** `buddy_alloc` and `phys_alloc` for requests of at most a region: null stands for the panic. */
    method Allocate(pages: nat, ghost lo: nat, ghost regions: nat) returns (block: Node?, ghost k: nat)
      requires Valid() && Inv(pool, lo, regions) && pages <= REGION
      modifies this`buckets, this`table, this`total, this`pool, chain, chain.nodes
      ensures Valid() && Inv(pool, lo, regions)
      ensures block == null ==> pool == old(pool) && forall j :: !Offered(pool, pages, j)
      ensures block != null ==> Offered(old(pool), pages, k) && pool == Alloc(old(pool), pages, k)
      ensures block != null ==> k < |chain.nodes| && chain.nodes[k] == block
    {
      RequestIsWord(pages);
      block, k := FindBlock(pages, lo, regions);
      if block != null {
        Grant(block, pages, k, lo, regions);
      }
    }

    method Grant(block: Node, pages: nat, ghost k: nat, ghost lo: nat, ghost regions: nat)
      requires Valid() && Inv(pool, lo, regions) && Offered(pool, pages, k) && k < |chain.nodes| &&
        chain.nodes[k] == block
      modifies this`buckets, this`table, this`total, this`pool, chain, block
      ensures Valid() && pool == Alloc(old(pool), pages, k) && Inv(pool, lo, regions)
      ensures k < |chain.nodes| && chain.nodes[k] == block
    {
      AllocKeeps(pool, lo, regions, pages, k);
      HandOut(block, OrderFor(pages).value, k, lo, lo + regions * REGION);
    }

    method HandOut(block: Node, order: nat, ghost k: nat, ghost lo: nat, ghost hi: nat)
      requires Valid() && Tiles(pool.chain, lo, hi) && k < |chain.nodes| && chain.nodes[k] == block
      requires order <= pool.chain[k].order <= MAX_ORDER
      modifies this`buckets, this`table, this`total, this`pool, chain, block
      ensures Valid() && k < |old(pool.chain)| && order <= old(pool.chain)[k].order <= MAX_ORDER < |old(pool.buckets)|
      ensures pool == BookAt(SplitDown(TakeAt(old(pool), k), k, order), k)
      ensures k < |chain.nodes| && chain.nodes[k] == block
      ensures forall n | n in chain.nodes :: n in old(chain.nodes) || fresh(n)
    {
      assert block.Value() == pool.chain[k];
      Take(block, k, lo, hi);
      assert block.Value() == pool.chain[k];
      SplitTo(block, order, k);
      Book(block, k);
    }

    lemma IsOffered(pages: nat, index: nat, block: Node, k: nat, lo: nat, regions: nat)
      requires Valid() && Inv(pool, lo, regions) && OrderFor(pages).Some? && OrderFor(pages).value <= index <= MAX_ORDER
      requires forall o | OrderFor(pages).value <= o < index :: pool.buckets[o] == {}
      requires k < |chain.nodes| && chain.nodes[k] == block && block in buckets[index]
      ensures Offered(pool, pages, k) && block.order == index
    {
      assert block.Value() == pool.chain[k];
      assert block.start in Starts(buckets[index]);
      FiledUnderItsOrder(pool, lo, regions, k, index);
    }

    /** The splitting loop of `buddy_alloc`. */
    method SplitTo(block: Node, order: nat, ghost k: nat)
      requires Valid() && k < |chain.nodes| && chain.nodes[k] == block && order <= block.order <= MAX_ORDER
      modifies this`buckets, this`pool, chain, block
      ensures Valid() && k < |old(pool.chain)| && order <= old(pool.chain)[k].order <= MAX_ORDER < |old(pool.buckets)|
      ensures pool == SplitDown(old(pool), k, order)
      ensures k < |chain.nodes| && chain.nodes[k] == block && block.order == order
      ensures forall n | n in chain.nodes :: n in old(chain.nodes) || fresh(n)
    {
      assert block.Value() == pool.chain[k];
      while block.order != order
        invariant Valid() && k < |chain.nodes| && chain.nodes[k] == block && order <= block.order <= MAX_ORDER
        invariant forall n | n in chain.nodes :: n in old(chain.nodes) || fresh(n)
        invariant block.Value() == pool.chain[k] && SplitDown(pool, k, order) == SplitDown(old(pool), k, order)
        decreases block.order
      {
        Split(block, k);
      }
    }

    /** Takes a block back: out of the table, free, not in the tree, no longer counted. */
    method Unbook(block: Node, ghost k: nat)
      requires Valid() && k < |chain.nodes| && chain.nodes[k] == block
      modifies this`table, this`total, this`pool, chain`blocks, block`free, block`inTree
      ensures Valid() && pool == UnbookAt(old(pool), k)
    {
      assert block.Value() == pool.chain[k];
      table := table - {block.start};
      chain.Mark(block, true, false, k);
      total := total - Pow2(block.order);
      pool := UnbookAt(pool, k);
    }

    /** The node behind `block` is in no bucket but its own order's, and there only if it is flagged. */
    ghost predicate Removable(k: nat)
      reads this, chain
    {
      && k + 1 < |chain.nodes| && |pool.chain| == |chain.nodes|
      && (forall o | 0 <= o < |buckets| && chain.nodes[k + 1] in buckets[o] ::
           o == pool.chain[k + 1].order && pool.chain[k + 1].inTree)
      && chain.nodes[k + 1] !in table.Values
    }

    lemma NextIsRemovable(k: nat, lo: nat, regions: nat)
      requires Valid() && Inv(pool, lo, regions) && k < |pool.chain| && pool.chain[k].order < MAX_ORDER &&
        Mergeable(pool.chain, k)
      ensures Removable(k)
    {
      var next := chain.nodes[k + 1];
      assert next.Value() == pool.chain[k + 1] && pool.chain[k + 1] in pool.chain;
      forall o | 0 <= o <= MAX_ORDER && next in buckets[o]
        ensures o == pool.chain[k + 1].order && pool.chain[k + 1].inTree
      {
        assert next.start in Starts(buckets[o]);
        FiledUnderItsOrder(pool, lo, regions, k + 1, o);
      }
      FreeIsNotBooked(pool.chain, lo, lo + regions * REGION, pool.used, k + 1);
    }

    /** Takes the node behind `block` out of the tree if it is flagged. */
    method Unfile(next: Node, ghost k: nat, ghost lo: nat, ghost hi: nat)
      requires Valid() && Tiles(pool.chain, lo, hi) && Removable(k) && chain.nodes[k + 1] == next &&
        pool.chain[k + 1].order <= MAX_ORDER
      modifies this`buckets
      ensures |buckets| == MAX_ORDER + 1
      ensures forall o | 0 <= o <= MAX_ORDER :: Starts(buckets[o]) == AbsorbAt(pool, k).buckets[o]
      ensures forall o, n | 0 <= o <= MAX_ORDER && n in buckets[o] :: n in chain.nodes && n != next
    {
      assert next.Value() == pool.chain[k + 1];
      if next.inTree {
        forall m | m in buckets[next.order] && m.start == next.start ensures m == next {
          chain.NodeIsUnique(lo, hi, k + 1, m);
        }
        StartsRemove(buckets[next.order], next);
        buckets := buckets[next.order := buckets[next.order] - {next}];
      }
    }

    /** The merge of `buddy_coalesce`. */
    method Absorb(block: Node, ghost k: nat, ghost lo: nat, ghost hi: nat)
      requires Valid() && Tiles(pool.chain, lo, hi) && k + 1 < |chain.nodes| && chain.nodes[k] == block
      requires pool.chain[k + 1].order <= MAX_ORDER && Removable(k)
      modifies this`buckets, this`pool, chain, block
      ensures Valid() && pool == AbsorbAt(old(pool), k)
      ensures k < |chain.nodes| && chain.nodes[k] == block && forall n | n in chain.nodes :: n in old(chain.nodes)
    {
      assert chain.nodes[k].next == chain.nodes[k + 1];
      Unfile(block.next, k, lo, hi);
      var next := chain.Absorb(block, k);
      pool := AbsorbAt(pool, k);
    }

    /** The guard of the merge. The original compares the zones of the two blocks, and the entry behind the last
        block is the one successor of another zone. */
    method CanMerge(block: Node, ghost k: nat) returns (can: bool)
      requires Valid() && k < |chain.nodes| && chain.nodes[k] == block && block.order < MAX_ORDER
      ensures can <==> Mergeable(pool.chain, k)
    {
      assert block.Value() == pool.chain[k];
      assert chain.nodes[k].next == if k + 1 < |chain.nodes| then chain.nodes[k + 1] else chain.end;
      if block.next == chain.end {
        return false;
      }
      assert block.next.Value() == pool.chain[k + 1];
      can := block.order == block.next.order && block.free && block.next.free && !block.next.first;
    }

    method Merge(block: Node, ghost k: nat, ghost lo: nat, ghost regions: nat)
      requires Valid() && Inv(pool, lo, regions) && k < |chain.nodes| && chain.nodes[k] == block &&
        Mergeable(pool.chain, k)
      modifies this`buckets, this`pool, chain, block
      ensures Valid() && k + 1 < |old(pool.chain)| && pool == FileAt(AbsorbAt(old(pool), k), k)
      ensures forall n | n in chain.nodes :: n in old(chain.nodes)
    {
      NextIsRemovable(k, lo, regions);
      Absorb(block, k, lo, lo + regions * REGION);
      assert block.Value() == pool.chain[k];
      File(block, k);
    }

    /** `buddy_coalesce`. */
    method CoalesceBlock(block: Node, ghost k: nat, ghost lo: nat, ghost regions: nat)
      requires Valid() && Inv(pool, lo, regions) && k < |chain.nodes| && chain.nodes[k] == block && Detached(pool, k)
      modifies this`buckets, this`pool, chain, block
      ensures Valid() && pool == Coalesce(old(pool), k)
      ensures forall n | n in chain.nodes :: n in old(chain.nodes)
    {
      assert block.Value() == pool.chain[k];
      if block.order == MAX_ORDER {
        File(block, k);
      } else {
        var can := CanMerge(block, k);
        if can {
          Merge(block, k, lo, regions);
        }
      }
    }

    method TakeBack(block: Node, ghost k: nat, ghost lo: nat, ghost regions: nat)
      requires Valid() && Inv(pool, lo, regions) && k < |chain.nodes| && chain.nodes[k] == block && !pool.chain[k].free
      modifies this`buckets, this`table, this`total, this`pool, chain, block
      ensures Valid() && Detached(UnbookAt(old(pool), k), k) && |UnbookAt(old(pool), k).buckets| == MAX_ORDER + 1
      ensures pool == Coalesce(UnbookAt(old(pool), k), k)
      ensures forall n | n in chain.nodes :: n in old(chain.nodes)
    {
      UnbookKeeps(pool, lo, regions, k);
      Unbook(block, k);
      CoalesceBlock(block, k, lo, regions);
    }

    /** `buddy_free`: an address that is not in the table is left to the slabs. */
    method Deallocate(address: nat, ghost lo: nat, ghost regions: nat)
      requires Valid() && Inv(pool, lo, regions)
      modifies this`buckets, this`table, this`total, this`pool, chain, chain.nodes
      ensures Valid() && Inv(pool, lo, regions) && Filed(old(pool.chain), old(pool.buckets))
      ensures pool == Dealloc(old(pool), address)
    {
      if address in table {
        var block := table[address];
        ghost var k: nat := IsBooked(address, lo, regions);
        DeallocKeeps(pool, lo, regions, address);
        TakeBack(block, k, lo, regions);
      }
    }

    lemma IsBooked(address: nat, lo: nat, regions: nat) returns (k: nat)
      requires Valid() && Inv(pool, lo, regions) && address in table
      ensures k < |chain.nodes| && chain.nodes[k] == table[address] && !pool.chain[k].free
      ensures Find(pool.chain, address) == Some(k)
    {
      k :| 0 <= k < |chain.nodes| && chain.nodes[k] == table[address];
      assert chain.nodes[k].Value() == pool.chain[k];
      UsedStart(pool, lo, regions, k);
    }

    /** The range after boot: `regions` blocks of MAX_ORDER, linked from the last to the first, all in the tree. */
    constructor (lo: nat, regions: nat)
      requires regions > 0
      ensures Valid() && pool == Boot(lo, regions) && fresh(chain) && fresh(chain.nodes)
    {
      var end := new Node(0, 255, false, false, null);
      var i, next, all := regions, end, {};
      ghost var nodes: seq<Node> := [];
      while i > 0
        invariant 0 <= i <= regions && |nodes| == regions - i && fresh(nodes) && fresh(end) && end !in nodes
        invariant next == if nodes == [] then end else nodes[0]
        invariant forall j, k | 0 <= j < k < |nodes| :: nodes[j] != nodes[k]
        invariant forall j {:trigger nodes[j].next} | 0 <= j < |nodes| ::
          nodes[j].next == if j + 1 < |nodes| then nodes[j + 1] else end
        invariant forall j | 0 <= j < |nodes| ::
          nodes[j].Value() == Block(lo + (i + j) * REGION, MAX_ORDER, true, i + j + 1 < regions, false)
        invariant forall n :: n in all <==> n in nodes
      {
        i := i - 1;
        next := new Node(lo + i * REGION, MAX_ORDER, i + 1 < regions, false, next);
        all := all + {next};
        nodes := [next] + nodes;
      }
      chain := new Chain(end, nodes, Boot(lo, regions).chain);
      buckets := seq(MAX_ORDER + 1, o => if o == MAX_ORDER then all else {});
      table, total := map[], 0;
      pool := Boot(lo, regions);
      BootStarts(nodes, all, lo, regions);
    }
  }

  lemma BootStarts(nodes: seq<Node>, all: set<Node>, lo: nat, regions: nat)
    requires |nodes| == regions && forall j | 0 <= j < regions :: nodes[j].start == lo + j * REGION
    requires forall n :: n in all <==> n in nodes
    ensures Starts(all) == Boot(lo, regions).buckets[MAX_ORDER]
  {
    var s := Boot(lo, regions).buckets[MAX_ORDER];
    forall x | x in s ensures x in Starts(all) {
      var j: nat :| j < regions && x == lo + j * REGION;
      assert nodes[j] in nodes && nodes[j].start == x;
    }
    forall x | x in Starts(all) ensures x in s {
      var n :| n in all && n.start == x;
      var j :| 0 <= j < |nodes| && nodes[j] == n;
    }
  }
}
