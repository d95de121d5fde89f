/** The linked binary search tree: nodes rewired in place, against the shapes they form. */
module BinarySearchTree {
  import opened Options

  class Node {
    var key: int
    var left: Node?
    var right: Node?

    constructor (key: int)
      ensures this.key == key && left == null && right == null
    {
      this.key, left, right := key, null, null;
    }
  }

  /** A tree of nodes with the keys they hold. */
  datatype Shape = Nil | Tree(node: Node, key: int, left: Shape, right: Shape)

  function Nodes(t: Shape): set<Node> {
    if t.Nil? then {} else {t.node} + Nodes(t.left) + Nodes(t.right)
  }

  function Keys(t: Shape): set<int> {
    if t.Nil? then {} else {t.key} + Keys(t.left) + Keys(t.right)
  }

  function InOrder(t: Shape): seq<int> {
    if t.Nil? then [] else InOrder(t.left) + [t.key] + InOrder(t.right)
  }

  /** No node occurs twice. */
  predicate Proper(t: Shape) {
    t.Tree? ==>
      && Proper(t.left) && Proper(t.right)
      && t.node !in Nodes(t.left) && t.node !in Nodes(t.right) && Nodes(t.left) !! Nodes(t.right)
  }

  /** Search order: smaller keys to the left, larger ones to the right. */
  predicate Ordered(t: Shape) {
    t.Tree? ==>
      && Ordered(t.left) && Ordered(t.right)
      && (forall k :: k in Keys(t.left) ==> k < t.key) && (forall k :: k in Keys(t.right) ==> k > t.key)
  }

  /** What a node of a shape holds. */
  datatype Cell = Cell(node: Node, key: int, left: Node?, right: Node?)

  function RootOf(t: Shape): Node? {
    if t.Nil? then null else t.node
  }

  function Cells(t: Shape): (r: set<Cell>)
    ensures forall c :: c in r ==> c.node in Nodes(t)
  {
    if t.Nil? then {}
    else {Cell(t.node, t.key, RootOf(t.left), RootOf(t.right))} + Cells(t.left) + Cells(t.right)
  }

  ghost predicate Stores(c: Cell)
    reads c.node
  {
    c.node.key == c.key && c.node.left == c.left && c.node.right == c.right
  }

  /** The heap below `n` has this shape. */
  ghost predicate Represents(n: Node?, t: Shape)
    reads Nodes(t)
  {
    n == RootOf(t) && forall c :: c in Cells(t) ==> Stores(c)
  }

  // ---------------------------------------------------------------- what insertion and removal make of a shape

  function InsertShape(t: Shape, key: int, node: Node): Shape {
    if t.Nil? then Tree(node, key, Nil, Nil)
    else if key == t.key then t
    else if key < t.key then t.(left := InsertShape(t.left, key, node))
    else t.(right := InsertShape(t.right, key, node))
  }

  function MinKey(t: Shape): int
    requires t.Tree?
  {
    if t.left.Nil? then t.key else MinKey(t.left)
  }

  function DeleteMin(t: Shape): Shape
    requires t.Tree?
  {
    if t.left.Nil? then t.right else t.(left := DeleteMin(t.left))
  }

  function EraseShape(t: Shape, key: int): Shape {
    if t.Nil? then Nil
    else if key < t.key then t.(left := EraseShape(t.left, key))
    else if key > t.key then t.(right := EraseShape(t.right, key))
    else if t.left.Nil? then t.right
    else if t.right.Nil? then t.left
    else t.(key := MinKey(t.right), right := DeleteMin(t.right))
  }

  lemma {:induction false} InsertMeaning(t: Shape, key: int, node: Node)
    requires Ordered(t)
    ensures Ordered(InsertShape(t, key, node)) && Keys(InsertShape(t, key, node)) == Keys(t) + {key}
    ensures key in Keys(t) ==> InsertShape(t, key, node) == t
  {
    if t.Tree? {
      InsertMeaning(t.left, key, node);
      InsertMeaning(t.right, key, node);
    }
  }

  lemma {:induction false} InsertProper(t: Shape, key: int, node: Node)
    requires Proper(t) && node !in Nodes(t)
    ensures Proper(InsertShape(t, key, node)) && Nodes(t) <= Nodes(InsertShape(t, key, node)) <= Nodes(t) + {node}
  {
    if t.Tree? {
      InsertProper(t.left, key, node);
      InsertProper(t.right, key, node);
    }
  }

  /** The smallest key is one of the keys, and removing its node removes just it. */
  lemma {:induction false} DeleteMinMeaning(t: Shape)
    requires t.Tree? && Ordered(t)
    ensures Ordered(DeleteMin(t)) && Keys(DeleteMin(t)) == Keys(t) - {MinKey(t)}
    ensures MinKey(t) in Keys(t) && forall k :: k in Keys(t) ==> MinKey(t) <= k
  {
    if t.left.Tree? {
      DeleteMinMeaning(t.left);
    }
  }

  lemma {:induction false} DeleteMinProper(t: Shape)
    requires t.Tree? && Proper(t)
    ensures Proper(DeleteMin(t)) && Nodes(DeleteMin(t)) <= Nodes(t)
  {
    if t.left.Tree? {
      DeleteMinProper(t.left);
    }
  }

  lemma {:induction false} EraseMeaning(t: Shape, key: int)
    requires Ordered(t)
    ensures Ordered(EraseShape(t, key)) && Keys(EraseShape(t, key)) == Keys(t) - {key}
    ensures key !in Keys(t) ==> EraseShape(t, key) == t
  {
    if t.Tree? {
      if key < t.key {
        EraseMeaning(t.left, key);
      } else if key > t.key {
        EraseMeaning(t.right, key);
      } else if t.left.Tree? && t.right.Tree? {
        DeleteMinMeaning(t.right);
      }
    }
  }

  lemma {:induction false} EraseProper(t: Shape, key: int)
    requires Proper(t)
    ensures Proper(EraseShape(t, key)) && Nodes(EraseShape(t, key)) <= Nodes(t)
  {
    if t.Tree? {
      EraseProper(t.left, key);
      EraseProper(t.right, key);
      if t.right.Tree? { DeleteMinProper(t.right); }
    }
  }

  /** In order, the keys ascend strictly. */
  lemma {:induction false} InOrderAscends(t: Shape)
    requires Ordered(t)
    ensures forall i, j :: 0 <= i < j < |InOrder(t)| ==> InOrder(t)[i] < InOrder(t)[j]
    ensures forall k :: k in InOrder(t) <==> k in Keys(t)
  {
    if t.Tree? {
      InOrderAscends(t.left);
      InOrderAscends(t.right);
      var a, b := InOrder(t.left), InOrder(t.right);
      forall i | 0 <= i < |a| ensures a[i] < t.key {
        assert a[i] in a;
      }
      forall i | 0 <= i < |b| ensures b[i] > t.key {
        assert b[i] in b;
      }
    }
  }

  /** A tree in search order has as many keys as nodes. */
  lemma {:induction false} AsManyKeysAsNodes(t: Shape)
    requires Ordered(t) && Proper(t)
    ensures |Keys(t)| == |Nodes(t)| == |InOrder(t)|
  {
    if t.Tree? {
      AsManyKeysAsNodes(t.left);
      AsManyKeysAsNodes(t.right);
      forall k | k in Keys(t.left) ensures k !in Keys(t.right) {
        assert k < t.key;
      }
      assert Keys(t.left) !! Keys(t.right);
    }
  }

  // ---------------------------------------------------------------- the splice

  /** Node `p` lies on the left spine of `t`, and its left subtree is `s`. */
  ghost predicate OnSpine(t: Shape, p: Node, s: Shape)
  {
    t.Tree? && (if t.node == p then t.left == s else OnSpine(t.left, p, s))
  }

  lemma {:induction false} SpineInside(t: Shape, p: Node, s: Shape)
    requires Proper(t) && OnSpine(t, p, s)
    ensures p in Nodes(t) && p !in Nodes(s) && Nodes(s) <= Nodes(t)
    ensures s.Tree? ==> t.left.Tree? && MinKey(t) == MinKey(s)
  {
    if t.node != p {
      SpineInside(t.left, p, s);
    }
  }

  lemma {:induction false} SpineExtends(t: Shape, p: Node, s: Shape)
    requires Proper(t) && OnSpine(t, p, s) && s.Tree?
    ensures OnSpine(t, s.node, s.left)
  {
    SpineInside(t, p, s);
    if t.node != p {
      SpineExtends(t.left, p, s);
      SpineInside(t.left, p, s);
    }
  }

  /** The heap below `n` has this shape, whatever the left pointer of node `p`. */
  ghost predicate RepresentsBut(n: Node?, t: Shape, p: Node)
    reads Nodes(t) - {p}, p`key, p`right
  {
    && n == RootOf(t)
    && forall c :: c in Cells(t) ==>
         if c.node == p then p.key == c.key && p.right == c.right else Stores(c)
  }

  /** Hanging the right subtree of the last spine node in its place removes the smallest key. */
  lemma {:induction false} SplicedSpine(n: Node, t: Shape, p: Node, s: Shape)
    requires Proper(t) && OnSpine(t, p, s) && RepresentsBut(n, t, p)
    requires s.Tree? && s.left.Nil? && p.left == RootOf(s.right)
    ensures t.left.Tree? && Represents(n, DeleteMin(t))
  {
    SpineInside(t, p, s);
    if t.node == p {
      assert Cells(s.right) <= Cells(s);
      assert DeleteMin(t) == t.(left := s.right);
    } else {
      SpineInside(t.left, p, s);
      SplicedSpine(t.left.node, t.left, p, s);
      assert DeleteMin(t) == t.(left := DeleteMin(t.left));
    }
  }

  // ---------------------------------------------------------------- node operations

  lemma {:induction false} InsertNodes(t: Shape, key: int, node: Node)
    ensures Nodes(InsertShape(t, key, node)) <= Nodes(t) + {node}
  {
    if t.Tree? {
      InsertNodes(t.left, key, node);
      InsertNodes(t.right, key, node);
    }
  }

  lemma Below(n: Node, t: Shape)
    requires Represents(n, t)
    ensures t.Tree? && n == t.node && n.key == t.key
    ensures Represents(n.left, t.left) && Represents(n.right, t.right)
    ensures (forall o :: o in Nodes(t.left) ==> allocated(o)) && (forall o :: o in Nodes(t.right) ==> allocated(o))
  {
    Unfold(n, t);
    AllAllocated(n.left, t.left);
    AllAllocated(n.right, t.right);
  }

  lemma Unfold(n: Node, t: Shape)
    requires Represents(n, t)
    ensures t.Tree? && n == t.node && n.key == t.key
    ensures Represents(n.left, t.left) && Represents(n.right, t.right)
  {
    assert Stores(Cell(t.node, t.key, RootOf(t.left), RootOf(t.right)));
  }

  lemma {:induction false} AllAllocated(n: Node?, t: Shape)
    requires Represents(n, t)
    ensures forall o :: o in Nodes(t) ==> allocated(o)
    decreases t
  {
    if n != null {
      Unfold(n, t);
      AllAllocated(n.left, t.left);
      AllAllocated(n.right, t.right);
    }
  }

  lemma Above(n: Node, t: Shape)
    requires t.Tree? && n == t.node && n.key == t.key
    requires Represents(n.left, t.left) && Represents(n.right, t.right)
    ensures Represents(n, t)
  {
  }

  /** Returns the pointer that comes to stand in the slot, which the code passes by reference. */
  method InsertNode(n: Node?, key: int, ghost t: Shape) returns (slot: Node, inserted: bool, ghost node: Node)
    requires Represents(n, t) && Proper(t) && Ordered(t)
    modifies Nodes(t)
    ensures inserted <==> key !in Keys(t)
    ensures if inserted then fresh(node) else node in Nodes(t)
    ensures Represents(slot, InsertShape(t, key, node))
    decreases t
  {
    if n == null {
      slot := new Node(key);
      return slot, true, slot;
    }
    Below(n, t);
    if key == n.key { return n, false, n; }
    slot := n;
    if key < n.key {
      var child;
      child, inserted, node := InsertNode(n.left, key, t.left);
      assert Represents(n.right, t.right);
      InsertNodes(t.left, key, node);
      n.left := child;
      Above(n, t.(left := InsertShape(t.left, key, node)));
    } else {
      var child;
      child, inserted, node := InsertNode(n.right, key, t.right);
      assert Represents(n.left, t.left);
      InsertNodes(t.right, key, node);
      n.right := child;
      Above(n, t.(right := InsertShape(t.right, key, node)));
    }
  }

  /** Returns what comes to stand in the slot. */
  method EraseNode(n: Node?, key: int, ghost t: Shape) returns (slot: Node?, erased: bool)
    requires Represents(n, t) && Proper(t) && Ordered(t)
    modifies Nodes(t)
    ensures erased <==> key in Keys(t)
    ensures Represents(slot, EraseShape(t, key))
    decreases t
  {
    if n == null { return null, false; }
    Below(n, t);
    if key < n.key {
      var child;
      child, erased := EraseNode(n.left, key, t.left);
      assert Represents(n.right, t.right);
      EraseProper(t.left, key);
      n.left := child;
      Above(n, t.(left := EraseShape(t.left, key)));
      return n, erased;
    }
    if key > n.key {
      var child;
      child, erased := EraseNode(n.right, key, t.right);
      assert Represents(n.left, t.left);
      EraseProper(t.right, key);
      n.right := child;
      Above(n, t.(right := EraseShape(t.right, key)));
      return n, erased;
    }
    if n.left == null && n.right == null { return null, true; }
    if n.left == null { return n.right, true; }
    if n.right == null { return n.left, true; }
    Splice(n, t);
    return n, true;
  }

  /** Two children: the node takes the key of its in-order successor, whose node leaves the tree. */
  method Splice(n: Node, ghost t: Shape)
    requires Represents(n, t) && Proper(t) && t.Tree? && t.left.Tree? && t.right.Tree?
    modifies Nodes(t)
    ensures Represents(n, t.(key := MinKey(t.right), right := DeleteMin(t.right)))
  {
    Below(n, t);
    var parent, succ: Node := n, n.right;
    ghost var s := t.right;
    while succ.left != null
      invariant Represents(n, t) && s.Tree? && Represents(succ, s) && Nodes(s) <= Nodes(t.right)
      invariant MinKey(s) == MinKey(t.right)
      invariant if parent == n then s == t.right else OnSpine(t.right, parent, s)
      decreases s
    {
      Below(succ, s);
      if parent == n {
        assert OnSpine(t.right, succ, s.left);
      } else {
        SpineExtends(t.right, parent, s);
      }
      parent, succ, s := succ, succ.left, s.left;
    }
    Below(succ, s);
    Below(n, t);
    DeleteMinProper(t.right);
    n.key := succ.key;
    assert Represents(n.right, t.right);
    var top: Node := n.right;
    assert Represents(n.left, t.left) && Represents(top, t.right) && Represents(succ.right, s.right);
    if parent == n {
      n.right := succ.right;
      assert Represents(n.left, t.left) && Represents(n.right, s.right);
    } else {
      SpineInside(t.right, parent, s);
      parent.left := succ.right;
      assert Represents(n.left, t.left) && Represents(parent.left, s.right);
      SplicedSpine(top, t.right, parent, s);
    }
    Above(n, t.(key := MinKey(t.right), right := DeleteMin(t.right)));
  }

  /** The keys in ascending order behind what is there already. */
  method CollectInOrder(n: Node?, out0: seq<int>, ghost t: Shape) returns (out: seq<int>)
    requires Represents(n, t)
    ensures out == out0 + InOrder(t)
    decreases t
  {
    out := out0;
    if n == null { return; }
    Below(n, t);
    out := CollectInOrder(n.left, out, t.left);
    out := out + [n.key];
    out := CollectInOrder(n.right, out, t.right);
  }

  /** How far apart two keys are. */
  function Gap(a: int, b: int): nat {
    if a >= b then a - b else b - a
  }

  /** `a` is no farther from `key` than `b`, on whichever sides of it they lie. */
  predicate NoFarther(key: int, a: int, b: int) {
    && (a - key <= b - key || a - key <= key - b)
    && (key - a <= b - key || key - a <= key - b)
  }

  /** `a` is a better answer than `b` for the key nearest to `key`, or the same. */
  predicate AsNear(key: int, a: int, b: int) {
    NoFarther(key, a, b) && (NoFarther(key, b, a) ==> a <= b)
  }

  /** There is only one nearest key. */
  lemma NearestIsUnique(key: int, keys: set<int>, a: int, b: int)
    requires a in keys && b in keys
    requires (forall k :: k in keys ==> AsNear(key, a, k)) && (forall k :: k in keys ==> AsNear(key, b, k))
    ensures a == b
  {
    assert AsNear(key, a, b) && AsNear(key, b, a);
  }

  /** The heap below `n` is a search tree of this shape. */
  ghost predicate IsTree(n: Node?, t: Shape)
    reads Nodes(t)
  {
    Represents(n, t) && Proper(t) && Ordered(t)
  }

  /** What an insertion at the root makes of the tree. */
  method InsertRoot(root: Node?, key: int, ghost t: Shape) returns (slot: Node, inserted: bool, ghost t': Shape)
    requires IsTree(root, t)
    modifies Nodes(t)
    ensures IsTree(slot, t') && Keys(t') == Keys(t) + {key} && (inserted <==> key !in Keys(t))
    ensures |Nodes(t')| == |Nodes(t)| + if inserted then 1 else 0
    ensures fresh(Nodes(t') - Nodes(t)) && forall o :: o in Nodes(t') ==> allocated(o)
  {
    ghost var node;
    AllAllocated(root, t);
    slot, inserted, node := InsertNode(root, key, t);
    t' := InsertShape(t, key, node);
    AllAllocated(slot, t');
    InsertMeaning(t, key, node);
    InsertNodes(t, key, node);
    if inserted {
      InsertProper(t, key, node);
      AsManyKeysAsNodes(t);
      AsManyKeysAsNodes(t');
    }
  }

  /** What a removal at the root makes of the tree. */
  method EraseRoot(root: Node?, key: int, ghost t: Shape) returns (slot: Node?, erased: bool, ghost t': Shape)
    requires IsTree(root, t)
    modifies Nodes(t)
    ensures IsTree(slot, t') && Keys(t') == Keys(t) - {key} && (erased <==> key in Keys(t))
    ensures |Nodes(t')| == |Nodes(t)| - if erased then 1 else 0
    ensures Nodes(t') <= Nodes(t) && forall o :: o in Nodes(t') ==> allocated(o)
  {
    slot, erased := EraseNode(root, key, t);
    t' := EraseShape(t, key);
    AllAllocated(slot, t');
    EraseMeaning(t, key);
    EraseProper(t, key);
    AsManyKeysAsNodes(t);
    AsManyKeysAsNodes(t');
  }

  /** The loop of `contains`. */
  method Search(root: Node?, key: int, ghost shape: Shape) returns (found: bool)
    requires IsTree(root, shape)
    ensures found <==> key in Keys(shape)
  {
    var n := root;
    ghost var t := shape;
    while n != null
      invariant Represents(n, t) && Ordered(t)
      invariant key in Keys(shape) <==> key in Keys(t)
      decreases t
    {
      Below(n, t);
      if key == n.key { return true; }
      t := if key < n.key then t.left else t.right;
      n := if key < n.key then n.left else n.right;
    }
    return false;
  }

  /** The walk of `nearest`: towards the key, remembering the best so far. */
  method NearestFrom(root: Node, key: int, ghost shape: Shape) returns (best: int)
    requires IsTree(root, shape)
    ensures best in Keys(shape) && forall k :: k in Keys(shape) ==> AsNear(key, best, k)
  {
    Below(root, shape);
    var cur: Node? := root;
    best := root.key;
    ghost var t := shape;
    while cur != null
      invariant Represents(cur, t) && Ordered(t) && Keys(t) <= Keys(shape)
      invariant best in Keys(shape)
      invariant forall k :: k in Keys(shape) ==> k in Keys(t) || AsNear(key, best, k)
      decreases t
    {
      Below(cur, t);
      var d, bd := Gap(cur.key, key), Gap(best, key);
      if d < bd || (d == bd && cur.key < best) { best := cur.key; }
      if key == cur.key { return key; }
      t := if key < cur.key then t.left else t.right;
      cur := if key < cur.key then cur.left else cur.right;
    }
  }

  method MinFrom(root: Node, ghost shape: Shape) returns (least: int)
    requires IsTree(root, shape)
    ensures least in Keys(shape) && forall k :: k in Keys(shape) ==> least <= k
  {
    Below(root, shape);
    DeleteMinMeaning(shape);
    var n := root;
    ghost var t := shape;
    while n.left != null
      invariant t.Tree? && Represents(n, t) && MinKey(t) == MinKey(shape)
      decreases t
    {
      Below(n, t);
      n, t := n.left, t.left;
    }
    Below(n, t);
    return n.key;
  }

  method MaxFrom(root: Node, ghost shape: Shape) returns (greatest: int)
    requires IsTree(root, shape)
    ensures greatest in Keys(shape) && forall k :: k in Keys(shape) ==> greatest >= k
  {
    var n := root;
    ghost var t := shape;
    while n.right != null
      invariant t.Tree? && Represents(n, t) && Ordered(t) && Keys(t) <= Keys(shape)
      invariant forall k :: k in Keys(shape) && k !in Keys(t) ==> k < t.key
      decreases t
    {
      Below(n, t);
      assert t.right.Tree? && t.key < t.right.key;
      n, t := n.right, t.right;
    }
    Below(n, t);
    return n.key;
  }

  class BinarySearchTree {
    var root: Node?
    var size: nat
    ghost var shape: Shape
    ghost var nodes: set<Node>
    ghost var keys: set<int>

    ghost predicate Valid()
      reads this, nodes
    {
      nodes == Nodes(shape) && keys == Keys(shape) && IsTree(root, shape) && size == |nodes|
    }

    constructor ()
      ensures Valid() && keys == {} && nodes == {}
    {
      root, size, shape, nodes, keys := null, 0, Nil, {}, {};
    }

    /** Makes this tree the one below `slot`. */
    method Install(slot: Node?, count: nat, ghost t: Shape)
      requires IsTree(slot, t) && count == |Nodes(t)| && forall o :: o in Nodes(t) ==> allocated(o)
      modifies this
      ensures Valid() && nodes == Nodes(t) && keys == Keys(t) && size == count
    {
      root, size, shape, nodes, keys := slot, count, t, Nodes(t), Keys(t);
      assert Represents(slot, t);
    }

    /** True exactly for a new key. */
    method Insert(key: int) returns (inserted: bool)
      requires Valid()
      modifies this, nodes
      ensures Valid() && fresh(nodes - old(nodes))
      ensures inserted <==> key !in old(keys)
      ensures keys == old(keys) + {key}
      ensures size == old(size) + if inserted then 1 else 0
    {
      var slot;
      ghost var t';
      slot, inserted, t' := InsertRoot(root, key, shape);
      Install(slot, if inserted then size + 1 else size, t');
    }

    /** True exactly for a key that was there. */
    method Erase(key: int) returns (erased: bool)
      requires Valid()
      modifies this, nodes
      ensures Valid() && nodes <= old(nodes)
      ensures erased <==> key in old(keys)
      ensures keys == old(keys) - {key}
      ensures size == old(size) - if erased then 1 else 0
    {
      var slot;
      ghost var t';
      slot, erased, t' := EraseRoot(root, key, shape);
      Install(slot, if erased then size - 1 else size, t');
    }

    method Contains(key: int) returns (found: bool)
      requires Valid()
      ensures found <==> key in keys
    {
      found := Search(root, key, shape);
    }

    /** `None` where the code throws; otherwise the stored key nearest to `key`, the smaller of two. */
    method Nearest(key: int) returns (nearest: Option<int>)
      requires Valid()
      ensures nearest.None? <==> keys == {}
      ensures nearest.Some? ==>
        nearest.value in keys && forall k :: k in keys ==> AsNear(key, nearest.value, k)
    {
      if root == null { return None; }
      var best := NearestFrom(root, key, shape);
      return Some(best);
    }

    method Min() returns (least: Option<int>)
      requires Valid()
      ensures least.None? <==> keys == {}
      ensures least.Some? ==> least.value in keys && forall k :: k in keys ==> least.value <= k
    {
      if root == null { return None; }
      var key := MinFrom(root, shape);
      return Some(key);
    }

    method Max() returns (greatest: Option<int>)
      requires Valid()
      ensures greatest.None? <==> keys == {}
      ensures greatest.Some? ==> greatest.value in keys && forall k :: k in keys ==> greatest.value >= k
    {
      if root == null { return None; }
      var key := MaxFrom(root, shape);
      return Some(key);
    }

    /** All keys, strictly ascending. */
    method Sequence() returns (out: seq<int>)
      requires Valid()
      ensures forall i, j :: 0 <= i < j < |out| ==> out[i] < out[j]
      ensures (forall k :: k in out <==> k in keys) && |out| == size
    {
      out := CollectInOrder(root, [], shape);
      InOrderAscends(shape);
      AsManyKeysAsNodes(shape);
    }
  }
}
