/** The kernel's search tree: linked nodes with a bucket of data each, insertion, lookup without removal, and the
    traversal with a stack of its own. */
module BinaryTree {

  const KEYS: nat := 0x1_0000_0000      // node keys are 32 bits wide

  class Node {
    const key: nat
    var bucket: seq<int>
    var left: Node?
    var right: Node?

    constructor (key: nat, data: int)
      ensures this.key == key && bucket == [data] && left == null && right == null
    {
      this.key, bucket, left, right := key, [data], null, null;
    }
  }

  /** The shape of a tree of nodes. */
  datatype Tree = Leaf | Branch(node: Node, left: Tree, right: Tree)

  ghost function Nodes(t: Tree): set<Node>
  {
    match t
    case Leaf => {}
    case Branch(n, l, r) => {n} + Nodes(l) + Nodes(r)
  }

  function Root(t: Tree): Node?
  {
    if t.Leaf? then null else t.node
  }

  ghost function Size(t: Tree): nat
  {
    match t
    case Leaf => 0
    case Branch(_, l, r) => 1 + Size(l) + Size(r)
  }

  ghost function Preorder(t: Tree): seq<Node>
  {
    match t
    case Leaf => []
    case Branch(n, l, r) => [n] + Preorder(l) + Preorder(r)
  }

  ghost function LeftOf(t: Tree, n: Node): Node?
  {
    match t
    case Leaf => null
    case Branch(m, l, r) => if n == m then Root(l) else if n in Nodes(l) then LeftOf(l, n) else LeftOf(r, n)
  }

  ghost function RightOf(t: Tree, n: Node): Node?
  {
    match t
    case Leaf => null
    case Branch(m, l, r) => if n == m then Root(r) else if n in Nodes(l) then RightOf(l, n) else RightOf(r, n)
  }

  /** The pointers of the nodes are those of the shape. */
  ghost predicate Linked(all: set<Node>, shape: Tree)
    reads all
  {
    forall n | n in all :: n.left == LeftOf(shape, n) && n.right == RightOf(shape, n)
  }

  /** No node occurs twice, and keys are in search order. */
  ghost predicate Ordered(t: Tree)
  {
    match t
    case Leaf => true
    case Branch(n, l, r) =>
      && n !in Nodes(l) && n !in Nodes(r) && Nodes(l) !! Nodes(r) && Ordered(l) && Ordered(r)
      && (forall m | m in Nodes(l) :: m.key < n.key)
      && (forall m | m in Nodes(r) :: n.key < m.key)
  }

  /** The subtree at which the search for `key` ends. */
  ghost function Place(t: Tree, key: nat): (p: Tree)
    requires t.Branch?
    ensures p.Branch? && p.node in Nodes(t)
  {
    if key < t.node.key && t.left.Branch? then Place(t.left, key)
    else if key > t.node.key && t.right.Branch? then Place(t.right, key)
    else t
  }

  /** The tree with `added` put where the search for its key ends. */
  ghost function Grown(t: Tree, added: Node): Tree
  {
    match t
    case Leaf => Branch(added, Leaf, Leaf)
    case Branch(n, l, r) => if added.key < n.key then Branch(n, Grown(l, added), r) else Branch(n, l, Grown(r, added))
  }

  lemma {:induction false} PlaceFinds(t: Tree, key: nat)
    requires t.Branch? && Ordered(t)
    ensures Place(t, key).node.key == key || forall n | n in Nodes(t) :: n.key != key
  {
    if key < t.node.key && t.left.Branch? {
      PlaceFinds(t.left, key);
    } else if key > t.node.key && t.right.Branch? {
      PlaceFinds(t.right, key);
    }
  }

  lemma {:induction false} GrownNodes(t: Tree, added: Node)
    ensures Nodes(Grown(t, added)) == Nodes(t) + {added} && Size(Grown(t, added)) == Size(t) + 1
  {
    match t
    case Leaf =>
    case Branch(n, l, r) =>
      if added.key < n.key { GrownNodes(l, added); } else { GrownNodes(r, added); }
  }

  lemma {:induction false} GrownOrdered(t: Tree, added: Node)
    requires Ordered(t) && added !in Nodes(t) && forall n | n in Nodes(t) :: n.key != added.key
    ensures Ordered(Grown(t, added))
  {
    match t
    case Leaf =>
    case Branch(n, l, r) =>
      if added.key < n.key {
        GrownNodes(l, added);
        GrownOrdered(l, added);
      } else {
        GrownNodes(r, added);
        GrownOrdered(r, added);
      }
  }

  /** The pointers of the grown tree: the place of the key points to the new node, the others point where they did. */
  lemma {:induction false} GrownLinks(t: Tree, added: Node, n: Node)
    requires t.Branch? && Ordered(t) && added !in Nodes(t) && n in Nodes(t) && Place(t, added.key).node.key != added.key
    ensures LeftOf(Grown(t, added), n) == if n == Place(t, added.key).node && added.key < n.key then added
      else LeftOf(t, n)
    ensures RightOf(Grown(t, added), n) == if n == Place(t, added.key).node && added.key > n.key then added
      else RightOf(t, n)
  {
    var l, r := t.left, t.right;
    GrownNodes(l, added);
    GrownNodes(r, added);
    if added.key < t.node.key && l.Branch? && n in Nodes(l) {
      GrownLinks(l, added, n);
    } else if added.key > t.node.key && r.Branch? && n in Nodes(r) {
      GrownLinks(r, added, n);
    }
  }

  lemma {:induction false} AddedLinks(t: Tree, added: Node)
    requires added !in Nodes(t)
    ensures LeftOf(Grown(t, added), added) == null == RightOf(Grown(t, added), added)
  {
    match t
    case Leaf =>
    case Branch(n, l, r) =>
      GrownNodes(l, added);
      if added.key < n.key { AddedLinks(l, added); } else { AddedLinks(r, added); }
  }

  lemma GrownAll(t: Tree, added: Node)
    requires t.Branch? && Ordered(t) && added !in Nodes(t) && !HasKey(Nodes(t), added.key)
    ensures Extends(t, Grown(t, added), Place(t, added.key).node, added)
  {
    GrownNodes(t, added);
    GrownOrdered(t, added);
    AddedLinks(t, added);
    forall n | n in Nodes(t) ensures
      && LeftOf(Grown(t, added), n) == (if n == Place(t, added.key).node && added.key < n.key then added
           else LeftOf(t, n))
      && RightOf(Grown(t, added), n) == (if n == Place(t, added.key).node && added.key > n.key then added
           else RightOf(t, n))
    {
      GrownLinks(t, added, n);
    }
  }

  /** Below a node the links of the whole tree are those of its subtrees. */
  ghost predicate PartOf(t: Tree, whole: Tree)
  {
    && Ordered(t) && Nodes(t) <= Nodes(whole)
    && forall n | n in Nodes(t) :: LeftOf(t, n) == LeftOf(whole, n) && RightOf(t, n) == RightOf(whole, n)
  }

  lemma PartsOf(t: Tree, whole: Tree)
    requires t.Branch? && PartOf(t, whole)
    ensures PartOf(t.left, whole) && PartOf(t.right, whole)
    ensures t.node in Nodes(whole) && LeftOf(whole, t.node) == Root(t.left) && RightOf(whole, t.node) == Root(t.right)
  {
  }

  /** The descent that insertion and lookup share. */
  method Descend(root: Node, ghost shape: Tree, ghost all: set<Node>, key: nat) returns (current: Node)
    requires Root(shape) == root && Ordered(shape) && all == Nodes(shape) && Linked(all, shape)
    ensures current in all && current == Place(shape, key).node
    ensures current.key == key || !HasKey(all, key)
  {
    current := root;
    ghost var t := shape;
    PlaceFinds(shape, key);
    while true
      invariant t.Branch? && current == t.node && PartOf(t, shape) && Place(t, key) == Place(shape, key)
      decreases t
    {
      PartsOf(t, shape);
      assert current.left == Root(t.left) && current.right == Root(t.right);
      if key == current.key {
        break;
      }
      if key < current.key {
        if current.left == null {
          break;
        }
        current, t := current.left, t.left;
      } else {
        if current.right == null {
          break;
        }
        current, t := current.right, t.right;
      }
    }
  }

  class BinaryTree {
    var root: Node?
    var count: nat
    ghost var shape: Tree
    ghost var all: set<Node>
    ghost var contents: map<nat, seq<int>>      // the data of each key, in the order of insertion

    ghost predicate Valid()
      reads this, all
    {
      Structure() && Buckets()
    }

    ghost predicate Structure()
      reads this, all
    {
      all == Nodes(shape) && Linked(all, shape) && Ordered(shape) && root == Root(shape) && count == Size(shape)
    }

    ghost predicate Buckets()
      reads this, all
    {
      && (forall n | n in all :: n.key in contents && contents[n.key] == n.bucket && n.bucket != [])
      && (forall k | k in contents :: k < KEYS && HasKey(all, k))
    }

    constructor ()
      ensures Valid() && contents == map[]
    {
      root, count, shape, all, contents := null, 0, Leaf, {}, map[];
    }

    /** `lookup_tree` without removal: the datum that was inserted first under the key. */
    method Lookup(key: nat) returns (found: bool, data: int)
      requires Valid()
      ensures found <==> key in contents
      ensures found ==> key < KEYS
      ensures found ==> contents[key] != [] && data == contents[key][0]
    {
      found, data := false, 0;
      if root == null {
        return;
      }
      var current := Descend(root, shape, all, key);
      if current.key == key {
        found, data := true, current.bucket[0];
      }
    }

    /** `insert_binary_tree`. */
    method Insert(data: int, key: nat)
      requires Valid() && key < KEYS
      modifies this, all
      ensures Valid() && fresh(all - old(all))
      ensures contents == old(contents)[key := DataOf(old(contents), key) + [data]]
    {
      assert DataOf(contents, key) == [] ==> DataOf(contents, key) + [data] == [data];
      if root == null {
        assert key in contents ==> HasKey(all, key);
        root := new Node(key, data);
        shape, all, count := Branch(root, Leaf, Leaf), {root}, count + 1;
        contents := contents[key := [data]];
        return;
      }
      var current := Descend(root, shape, all, key);
      if current.key == key {
        Append(current, data);
      } else {
        Attach(current, data, key);
      }
    }

    method Append(current: Node, data: int)
      requires Valid() && current in all
      modifies this`contents, current`bucket
      ensures Valid() && contents == old(contents)[current.key := old(contents)[current.key] + [data]]
    {
      current.bucket := current.bucket + [data];
      contents := contents[current.key := current.bucket];
      KeysUnique(shape, current);
    }

    method Attach(current: Node, data: int, key: nat)
      requires Valid() && shape.Branch? && current in all && current == Place(shape, key).node && !HasKey(all, key) &&
        key < KEYS
      modifies this`shape, this`all, this`count, this`contents, current`left, current`right
      ensures Valid() && contents == old(contents)[key := [data]] && fresh(all - old(all))
    {
      var added := Grow(current, data, key);
      Register(added, old(all));
    }

    method Grow(current: Node, data: int, key: nat) returns (added: Node)
      requires Structure() && shape.Branch? && current in all && current == Place(shape, key).node &&
        !HasKey(all, key) && key < KEYS
      modifies this`shape, this`all, this`count, current`left, current`right
      ensures Structure() && fresh(added) && all == old(all) + {added} && added.key == key && added.bucket == [data]
    {
      added := new Node(key % KEYS, data);
      GrownAll(shape, added);
      Adopt(current, added, Grown(shape, added));
    }

    /** The new node goes below `current`, which makes the shape `u`. */
    method Adopt(current: Node, added: Node, ghost u: Tree)
      requires Structure() && Extends(shape, u, current, added) && current in all && added !in all &&
        added.left == null == added.right
      modifies this`shape, this`all, this`count, current`left, current`right
      ensures Structure() && all == old(all) + {added}
    {
      Link(current, added, shape, u, all);
      shape, all, count := u, all + {added}, count + 1;
    }

    /** The bucket of a new node counts as the data of its key. */
    ghost method Register(added: Node, before: set<Node>)
      requires all == before + {added} && added !in before && added.bucket != [] && !HasKey(before, added.key)
      requires forall n | n in before :: n.key in contents && contents[n.key] == n.bucket && n.bucket != []
      requires added.key < KEYS && forall k | k in contents :: k < KEYS && HasKey(before, k)
      modifies this`contents
      ensures Buckets() && contents == old(contents)[added.key := added.bucket]
    {
      contents := contents[added.key := added.bucket];
      KeysStay(before, all, old(contents).Keys);
      assert HasKey(all, added.key);
      assert forall n | n in before :: HasKey(before, n.key);
    }
  }

  // ------------------------------------------------------------------ traversal

  /** Preorder visits every node once. */
  lemma {:induction false} PreorderOnce(t: Tree)
    requires Ordered(t)
    ensures Once(Preorder(t), Nodes(t)) && |Preorder(t)| == Size(t)
  {
    match t
    case Leaf =>
    case Branch(n, l, r) =>
      PreorderOnce(l);
      PreorderOnce(r);
      OnceConcat(Preorder(l), Preorder(r), Nodes(l), Nodes(r), n);
  }

  /** The node behind the one at `i` is its left child, or its right one if it has no left one. */
  ghost predicate ChildNext(s: seq<Node>, i: int, left: Node?, right: Node?)
  {
    && (left != null ==> 0 <= i < |s| - 1 && s[i + 1] == left)
    && (left == null && right != null ==> 0 <= i < |s| - 1 && s[i + 1] == right)
  }

  lemma {:induction false} PreorderNext(t: Tree, i: nat)
    requires Ordered(t) && i < |Preorder(t)|
    ensures ChildNext(Preorder(t), i, LeftOf(t, Preorder(t)[i]), RightOf(t, Preorder(t)[i]))
  {
    var Branch(n, l, r) := t;
    var a, b := Preorder(l), Preorder(r);
    if i == 0 {
      RootFirst(l);
      RootFirst(r);
    } else if i <= |a| {
      PreorderNext(l, i - 1);
      NextInLeft(t, a, b, i - 1, a[i - 1]);
    } else {
      PreorderNext(r, i - 1 - |a|);
      NextInRight(t, a, b, i - 1 - |a|, b[i - 1 - |a|]);
    }
  }

  lemma NextInLeft(t: Tree, a: seq<Node>, b: seq<Node>, i: nat, m: Node)
    requires t.Branch? && Ordered(t) && a == Preorder(t.left) && b == Preorder(t.right) && i < |a| && m == a[i]
    requires ChildNext(a, i, LeftOf(t.left, m), RightOf(t.left, m))
    ensures Preorder(t)[1 + i] == m && ChildNext(Preorder(t), 1 + i, LeftOf(t, m), RightOf(t, m))
  {
    Visited(t.left, i);
    NextShifts([t.node], a, b, i, LeftOf(t.left, m), RightOf(t.left, m));
  }

  lemma NextInRight(t: Tree, a: seq<Node>, b: seq<Node>, i: nat, m: Node)
    requires t.Branch? && Ordered(t) && a == Preorder(t.left) && b == Preorder(t.right) && i < |b| && m == b[i]
    requires ChildNext(b, i, LeftOf(t.right, m), RightOf(t.right, m))
    ensures Preorder(t)[1 + |a| + i] == m && ChildNext(Preorder(t), 1 + |a| + i, LeftOf(t, m), RightOf(t, m))
  {
    Visited(t.right, i);
    NextShifts([t.node] + a, b, [], i, LeftOf(t.right, m), RightOf(t.right, m));
    assert [t.node] + a + b + [] == Preorder(t);
  }

  lemma Visited(t: Tree, i: nat)
    requires Ordered(t) && i < |Preorder(t)|
    ensures Preorder(t)[i] in Nodes(t)
  {
    PreorderOnce(t);
  }

  lemma NextShifts(front: seq<Node>, s: seq<Node>, back: seq<Node>, i: nat, left: Node?, right: Node?)
    requires i < |s| && ChildNext(s, i, left, right)
    ensures ChildNext(front + s + back, |front| + i, left, right)
  {
  }

  lemma InOrder(t: Tree)
    requires Ordered(t)
    ensures var s := Preorder(t);
      SmallerFirst(s) && forall i | 0 <= i < |s| :: ChildNext(s, i, LeftOf(t, s[i]), RightOf(t, s[i]))
  {
    var s := Preorder(t);
    PreorderSmallerFirst(t);
    forall i | 0 <= i < |s| ensures ChildNext(s, i, LeftOf(t, s[i]), RightOf(t, s[i])) {
      PreorderNext(t, i);
    }
  }

  lemma RootFirst(t: Tree)
    ensures if t.Leaf? then Preorder(t) == [] else |Preorder(t)| > 0 && Preorder(t)[0] == t.node
  {
  }

  /** Once a larger key than a node's is visited, no smaller one comes: its left subtree is before its right one. */
  ghost predicate SmallerFirst(s: seq<Node>)
  {
    forall i, j, k | 0 <= i < j < k < |s| :: s[i].key < s[j].key ==> s[i].key < s[k].key
  }

  lemma SmallerJoin(n: Node, a: seq<Node>, b: seq<Node>)
    requires SmallerFirst(a) && SmallerFirst(b)
    requires (forall m | m in a :: m.key < n.key) && (forall m | m in b :: n.key < m.key)
    ensures SmallerFirst([n] + a + b)
  {
    var s, one := [n] + a + b, 1 + |a|;
    forall i, j, k | 0 <= i < j < k < |s| && s[i].key < s[j].key ensures s[i].key < s[k].key {
      if 1 <= i && k < one {
        assert s[i] == a[i - 1] && s[j] == a[j - 1] && s[k] == a[k - 1];
      } else if i >= one {
        assert s[i] == b[i - one] && s[j] == b[j - one] && s[k] == b[k - one];
      } else if k >= one {
        assert s[k] == b[k - one] && (i == 0 || s[i] == a[i - 1]);
      } else {
        assert s[j] == a[j - 1];
      }
    }
  }

  lemma {:induction false} PreorderSmallerFirst(t: Tree)
    requires Ordered(t)
    ensures SmallerFirst(Preorder(t))
  {
    match t
    case Leaf =>
    case Branch(n, l, r) =>
      PreorderOnce(l);
      PreorderOnce(r);
      PreorderSmallerFirst(l);
      PreorderSmallerFirst(r);
      SmallerJoin(n, Preorder(l), Preorder(r));
  }

  ghost predicate Once(s: seq<Node>, all: set<Node>)
  {
    && (forall n | n in s :: n in all) && (forall n | n in all :: n in s)
    && (forall i, j | 0 <= i < j < |s| :: s[i] != s[j])
  }

  lemma OnceConcat(a: seq<Node>, b: seq<Node>, x: set<Node>, y: set<Node>, n: Node)
    requires Once(a, x) && Once(b, y) && x !! y && n !in x && n !in y
    ensures Once([n] + a + b, {n} + x + y)
  {
    var s := [n] + a + b;
    forall i, j | 0 <= i < j < |s| ensures s[i] != s[j] {
      assert i == 0 || s[i] in a || s[i] in b;
      assert s[j] in a || s[j] in b;
      if i <= |a| < j {
        assert s[j] in b;
      }
    }
  }

  /** What is still to be visited: the trees of the stack from the top down. */
  ghost function Rest(pending: seq<Tree>): seq<Node>
  {
    if pending == [] then [] else Preorder(pending[|pending| - 1]) + Rest(pending[..|pending| - 1])
  }

  ghost function Weight(pending: seq<Tree>): nat
  {
    if pending == [] then 0 else Size(pending[|pending| - 1]) + Weight(pending[..|pending| - 1])
  }

  lemma {:induction false} WeightBound(pending: seq<Tree>)
    requires forall i | 0 <= i < |pending| :: pending[i].Branch?
    ensures |pending| <= Weight(pending)
  {
    if pending != [] {
      WeightBound(pending[..|pending| - 1]);
    }
  }

  ghost function Push(pending: seq<Tree>, t: Tree): seq<Tree>
  {
    if t.Branch? then pending + [t] else pending
  }

  lemma PushIs(pending: seq<Tree>, t: Tree)
    ensures Rest(Push(pending, t)) == Preorder(t) + Rest(pending) &&
      Weight(Push(pending, t)) == Size(t) + Weight(pending)
  {
    if t.Branch? {
      assert (pending + [t])[..|pending|] == pending;
    }
  }

  /** The stack after the root of its top tree was visited: right child first, so that left is on top. */
  ghost function Popped(pending: seq<Tree>): seq<Tree>
    requires pending != [] && pending[|pending| - 1].Branch?
  {
    Push(Push(pending[..|pending| - 1], pending[|pending| - 1].right), pending[|pending| - 1].left)
  }

  lemma PoppedIs(pending: seq<Tree>)
    requires pending != [] && pending[|pending| - 1].Branch?
    ensures Rest(pending) == [pending[|pending| - 1].node] + Rest(Popped(pending))
    ensures Weight(pending) == 1 + Weight(Popped(pending))
  {
    var t, below := pending[|pending| - 1], pending[..|pending| - 1];
    PushIs(below, t.right);
    PushIs(Push(below, t.right), t.left);
    Regroup(t.node, Preorder(t.left), Preorder(t.right), Rest(below));
  }

  lemma Regroup(n: Node, a: seq<Node>, b: seq<Node>, c: seq<Node>)
    ensures [n] + a + b + c == [n] + (a + (b + c))
  {
  }

  /** The stack slots up to `top` hold the roots of the pending trees. */
  ghost predicate Stacked(stack: seq<Node?>, top: int, pending: seq<Tree>, shape: Tree)
  {
    && -1 <= top < |stack| && |pending| == top + 1
    && (forall i | 0 <= i < |pending| :: pending[i].Branch? && stack[i] == pending[i].node)
    && (forall i | 0 <= i < |pending| :: PartOf(pending[i], shape))
  }

  /** `for_each_node_in_tree`: the callback is told every node once, in preorder; the stack has one slot per node
      and no access is outside it. */
  method ForEach(tree: BinaryTree) returns (visited: seq<Node>)
    requires tree.Structure()
    ensures visited == Preorder(tree.shape) && |visited| == tree.count && Once(visited, tree.all)
    ensures SmallerFirst(visited)
    ensures forall i | 0 <= i < |visited| :: ChildNext(visited, i, visited[i].left, visited[i].right)
  {
    visited := [];
    PreorderOnce(tree.shape);
    InOrder(tree.shape);
    if tree.root == null {
      return;
    }
    var stack := new Node?[tree.count](_ => null);
    visited := Walk(stack, tree.root, tree.shape, tree.all);
  }

  method Walk(stack: array<Node?>, root: Node, ghost shape: Tree, ghost all: set<Node>) returns (visited: seq<Node>)
    requires stack.Length == Size(shape) && root == Root(shape) && Ordered(shape) && all == Nodes(shape) &&
      Linked(all, shape)
    modifies stack
    ensures visited == Preorder(shape)
  {
    var top := 0;
    visited := [];
    stack[top] := root;
    ghost var pending, full := Push([], shape), Preorder(shape);
    PushIs([], shape);
    while top >= 0
      invariant Stacked(stack[..], top, pending, shape) && Weight(pending) <= stack.Length
      invariant |visited| <= |full| && visited == full[..|visited|] && Rest(pending) == full[|visited|..]
      decreases Weight(pending)
    {
      top, visited, pending := Turn(stack, top, visited, pending, shape, all, full);
    }
  }

  method Turn(stack: array<Node?>, top: int, visited: seq<Node>, ghost pending: seq<Tree>, ghost shape: Tree,
              ghost all: set<Node>, ghost full: seq<Node>)
    returns (top': int, visited': seq<Node>, ghost pending': seq<Tree>)
    requires Stacked(stack[..], top, pending, shape) && top >= 0 && Weight(pending) <= stack.Length
    requires all == Nodes(shape) && Linked(all, shape)
    requires |visited| <= |full| && visited == full[..|visited|] && Rest(pending) == full[|visited|..]
    modifies stack
    ensures Stacked(stack[..], top', pending', shape) && Weight(pending') == Weight(pending) - 1
    ensures |visited'| <= |full| && visited' == full[..|visited'|] && Rest(pending') == full[|visited'|..]
  {
    top', visited', pending' := Visit(stack, top, visited, pending, shape, all);
    Shift(full, visited, pending[top].node, Rest(pending'));
  }

  lemma Shift(full: seq<Node>, visited: seq<Node>, n: Node, rest: seq<Node>)
    requires |visited| <= |full| && visited == full[..|visited|] && [n] + rest == full[|visited|..]
    ensures |visited| < |full| && visited + [n] == full[..|visited| + 1] && rest == full[|visited| + 1..]
  {
    assert full[|visited|..][1..] == rest;
  }

  /** One turn of the loop. */
  method Visit(stack: array<Node?>, top: int, visited: seq<Node>, ghost pending: seq<Tree>, ghost shape: Tree,
               ghost all: set<Node>)
    returns (top': int, visited': seq<Node>, ghost pending': seq<Tree>)
    requires Stacked(stack[..], top, pending, shape) && top >= 0 && Weight(pending) <= stack.Length
    requires all == Nodes(shape) && Linked(all, shape)
    modifies stack
    ensures Stacked(stack[..], top', pending', shape) && Weight(pending') == Weight(pending) - 1
    ensures visited' == visited + [pending[top].node] && Rest(pending) == [pending[top].node] + Rest(pending')
  {
    var current := stack[top];
    ghost var t, below := pending[top], pending[..top];
    PartsOf(t, shape);
    PoppedIs(pending);
    PushIs(below, t.right);
    top', visited' := top - 1, visited + [current];
    assert Stacked(stack[..], top', below, shape);
    WeightBound(below);
    top' := PushNode(stack, top', current.right, below, t.right, shape);
    WeightBound(Push(below, t.right));
    top' := PushNode(stack, top', current.left, Push(below, t.right), t.left, shape);
    pending' := Popped(pending);
  }

  method PushNode(stack: array<Node?>, top: int, node: Node?, ghost pending: seq<Tree>, ghost t: Tree,
                  ghost shape: Tree) returns (top': int)
    requires Stacked(stack[..], top, pending, shape) && node == Root(t) && PartOf(t, shape) &&
      (t.Branch? ==> |pending| < stack.Length)
    modifies stack
    ensures Stacked(stack[..], top', Push(pending, t), shape)
  {
    top' := top;
    if node != null {
      top' := top' + 1;
      stack[top'] := node;
    }
  }

  /** `u` is the tree `t` with `added` as a child of `current`. */
  ghost predicate Extends(t: Tree, u: Tree, current: Node, added: Node)
  {
    && Ordered(u) && Nodes(u) == Nodes(t) + {added} && Size(u) == Size(t) + 1 && Root(u) == Root(t) &&
         !HasKey(Nodes(t), added.key)
    && LeftOf(u, added) == null == RightOf(u, added)
    && forall n | n in Nodes(t) ::
         && LeftOf(u, n) == (if n == current && added.key < n.key then added else LeftOf(t, n))
         && RightOf(u, n) == (if n == current && added.key > n.key then added else RightOf(t, n))
  }

  /** Points `current` at the new node. */
  method Link(current: Node, added: Node, ghost t: Tree, ghost u: Tree, ghost all: set<Node>)
    requires Linked(all, t) && current in all && added !in all && added.left == null == added.right &&
      added.key != current.key
    requires LeftOf(u, added) == null == RightOf(u, added)
    requires forall n | n in all ::
      && LeftOf(u, n) == (if n == current && added.key < n.key then added else LeftOf(t, n))
      && RightOf(u, n) == (if n == current && added.key > n.key then added else RightOf(t, n))
    modifies current`left, current`right
    ensures Linked(all + {added}, u)
  {
    if added.key < current.key {
      current.left := added;
    } else {
      current.right := added;
    }
  }

  lemma KeysStay(all: set<Node>, more: set<Node>, keys: set<nat>)
    requires all <= more && forall k | k in keys :: HasKey(all, k)
    ensures forall k | k in keys :: HasKey(more, k)
  {
    forall k | k in keys ensures HasKey(more, k) {
      var n :| n in all && n.key == k;
      assert n in more;
    }
  }

  ghost function DataOf(contents: map<nat, seq<int>>, key: nat): seq<int>
  {
    if key in contents then contents[key] else []
  }

  ghost predicate HasKey(all: set<Node>, k: nat)
  {
    exists n | n in all :: n.key == k
  }

  lemma {:induction false} KeysUnique(t: Tree, n: Node)
    requires Ordered(t) && n in Nodes(t)
    ensures forall m | m in Nodes(t) && m.key == n.key :: m == n
  {
    match t
    case Branch(_, l, r) =>
      if n in Nodes(l) { KeysUnique(l, n); }
      if n in Nodes(r) { KeysUnique(r, n); }
  }
}
