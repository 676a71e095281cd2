/**
 jk_avl.c on the heap: nodes rewritten in place through a stack of places (pointers to
 child slots). Each method is proved against the functions of module AvlShape, and the
 public operations state what those functions were shown to promise.
 */
module Avl {
  import opened AvlShape

  class Node {
    var key: nat
    var data: object?
    var height: int
    var left: Node?
    var right: Node?

    constructor (key: nat, data: object?)
      ensures this.key == key && this.data == data
    {
      this.key, this.data := key, data;
      height, left, right := 0, null, null;
    }
  }

  // A jk_avl_node_t **: the slot that points to a subtree.
  datatype Place = Root | LeftOf(parent: Node) | RightOf(parent: Node)

  ghost function Top(t: Tree<Node>): Node? {
    if t.Leaf? then null else t.item
  }

  /** The heap below Top(t) is the tree `t`. */
  ghost predicate Rep(t: Tree<Node>)
    reads Items(t)
  {
    t.Bin? ==>
      && t.item.key == t.key && t.item.height == t.h
      && t.item.left == Top(t.left) && t.item.right == Top(t.right)
      && Rep(t.left) && Rep(t.right)
  }

  /** The nodes of the path are linked as it says, and its hole holds `hole`. */
  ghost predicate RepPath(p: Path<Node>, hole: Node?)
    reads PathItems(p)
  {
    p.Down? ==>
      && p.item.key == p.key && p.item.height == p.h
      && p.item.left == (if p.goLeft then hole else Top(p.other))
      && p.item.right == (if p.goLeft then Top(p.other) else hole)
      && Rep(p.other) && RepPath(p.up, p.item)
  }

  ghost function PathTop(p: Path<Node>, hole: Node?): Node? {
    if p.Here? then hole else PathTop(p.up, p.item)
  }

  /** The place that the hole of `p` is, when the outermost frame hangs in `base`. */
  ghost function PlaceOf(p: Path<Node>, base: Place): Place {
    if p.Here? then base else if p.goLeft then LeftOf(p.item) else RightOf(p.item)
  }

  /** s[lo..n] are the places of the nodes of `p`, outermost first. */
  ghost predicate StackHolds(s: seq<Place>, lo: nat, n: nat, p: Path<Node>, base: Place)
    requires n <= |s|
  {
    if p.Here? then n == lo
    else n > lo && s[n - 1] == PlaceOf(p.up, base) && StackHolds(s, lo, n - 1, p.up, base)
  }

  twostate predicate Same(s: set<Node>)
    reads s
  {
    forall n :: n in s ==> unchanged(n)
  }

  lemma {:induction false} ItemsAllocated(t: Tree<Node>)
    ensures forall m :: m in Items(t) ==> allocated(m)
  {
    if t.Leaf? {
    } else {
      ItemsAllocated(t.left);
      ItemsAllocated(t.right);
    }
  }

  lemma {:induction false} StackKept(s: seq<Place>, s': seq<Place>, lo: nat, n: nat, p: Path<Node>, base: Place)
    requires n <= |s| && n <= |s'| && s[..n] == s'[..n]
    requires StackHolds(s, lo, n, p, base)
    ensures StackHolds(s', lo, n, p, base)
  {
    if p.Here? {
    } else {
      assert s[n - 1] == s[..n][n - 1] == s'[..n][n - 1];
      assert s[..n - 1] == s[..n][..n - 1] == s'[..n][..n - 1] == s'[..n - 1];
      StackKept(s, s', lo, n - 1, p.up, base);
    }
  }

  lemma {:induction false} StackDepth(s: seq<Place>, lo: nat, n: nat, p: Path<Node>, base: Place)
    requires n <= |s| && StackHolds(s, lo, n, p, base)
    ensures n == lo + Len(p)
  {
    if p.Here? {
    } else {
      StackDepth(s, lo, n - 1, p.up, base);
    }
  }

  lemma {:induction false} RepPlug(p: Path<Node>, sub: Tree<Node>)
    ensures Rep(Plug(p, sub)) <==> RepPath(p, Top(sub)) && Rep(sub)
    ensures Top(Plug(p, sub)) == PathTop(p, Top(sub))
  {
    if p.Here? {
    } else {
      RepPlug(p.up, Join(p, sub));
    }
  }

  /** JK_AVL_HEIGHT_OF */
  function HeightOf(n: Node?): int
    reads n
  {
    if n == null then 0 else n.height
  }

  lemma TopHeight(t: Tree<Node>)
    requires Rep(t)
    ensures HeightOf(Top(t)) == H(t)
  {
  }

  method RotateRightSingle(node: Node, ghost t: Tree<Node>) returns (top: Node)
    requires t.Bin? && t.item == node && Rep(t) && Distinct(t)
    requires H(t.right) + 1 < H(t.left) && H(t.left.left) >= H(t.left.right)
    modifies Items(t)`left, Items(t)`right, Items(t)`height
    ensures Rep(RightRotated(t)) && top == RightRotated(t).item
  {
    var nodeleft := node.left;
    assert Rep(t.left) && Rep(t.left.right);
    var nodeleftright := nodeleft.right;
    var heightleftright := HeightOf(nodeleftright);
    node.left := nodeleftright;
    nodeleft.right := node;
    node.height := 1 + heightleftright;
    nodeleft.height := 1 + node.height;
    top := nodeleft;
  }

  method RotateRightDouble(node: Node, ghost t: Tree<Node>) returns (top: Node)
    requires t.Bin? && t.item == node && Rep(t) && Distinct(t)
    requires H(t.right) + 1 < H(t.left) && H(t.left.left) < H(t.left.right)
    modifies Items(t)`left, Items(t)`right, Items(t)`height
    ensures Rep(RightRotated(t)) && top == RightRotated(t).item
  {
    var nodeleft := node.left;
    var heightleft := HeightOf(nodeleft);
    ghost var l, m := t.left, t.left.right;
    assert Rep(l) && Rep(m) && Distinct(l) && Distinct(m);
    var nodeleftright := nodeleft.right;
    var heightleftright := HeightOf(nodeleftright);
    nodeleft.right := nodeleftright.left;
    node.left := nodeleftright.right;
    nodeleftright.left := nodeleft;
    nodeleftright.right := node;
    nodeleft.height := heightleftright;
    node.height := heightleftright;
    nodeleftright.height := heightleft;
    assert Same(Items(l.left)) && Same(Items(m.left)) && Same(Items(m.right)) && Same(Items(t.right));
    assert Rep(RightRotated(t).left) && Rep(RightRotated(t).right);
    top := nodeleftright;
  }

  method RotateLeftSingle(node: Node, ghost t: Tree<Node>) returns (top: Node)
    requires t.Bin? && t.item == node && Rep(t) && Distinct(t)
    requires H(t.left) + 1 < H(t.right) && H(t.right.right) >= H(t.right.left)
    modifies Items(t)`left, Items(t)`right, Items(t)`height
    ensures Rep(LeftRotated(t)) && top == LeftRotated(t).item
  {
    var noderight := node.right;
    assert Rep(t.right) && Rep(t.right.left);
    var noderightleft := noderight.left;
    var heightrightleft := HeightOf(noderightleft);
    node.right := noderightleft;
    noderight.left := node;
    node.height := 1 + heightrightleft;
    noderight.height := 1 + node.height;
    top := noderight;
  }

  method RotateLeftDouble(node: Node, ghost t: Tree<Node>) returns (top: Node)
    requires t.Bin? && t.item == node && Rep(t) && Distinct(t)
    requires H(t.left) + 1 < H(t.right) && H(t.right.right) < H(t.right.left)
    modifies Items(t)`left, Items(t)`right, Items(t)`height
    ensures Rep(LeftRotated(t)) && top == LeftRotated(t).item
  {
    var noderight := node.right;
    var heightright := HeightOf(noderight);
    ghost var r, m := t.right, t.right.left;
    assert Rep(r) && Rep(m) && Distinct(r) && Distinct(m);
    var noderightleft := noderight.left;
    var heightrightleft := HeightOf(noderightleft);
    noderight.left := noderightleft.right;
    node.right := noderightleft.left;
    noderightleft.right := noderight;
    noderightleft.left := node;
    noderight.height := heightrightleft;
    node.height := heightrightleft;
    noderightleft.height := heightright;
    assert Same(Items(r.right)) && Same(Items(m.left)) && Same(Items(m.right)) && Same(Items(t.left));
    assert Rep(LeftRotated(t).left) && Rep(LeftRotated(t).right);
    top := noderightleft;
  }

  method RotateRight(node: Node, ghost t: Tree<Node>) returns (top: Node)
    requires t.Bin? && t.item == node && Rep(t) && Distinct(t) && H(t.right) + 1 < H(t.left)
    modifies Items(t)`left, Items(t)`right, Items(t)`height
    ensures Rep(RightRotated(t)) && top == RightRotated(t).item
  {
    TopHeight(t.left.left);
    TopHeight(t.left.right);
    if HeightOf(node.left.left) >= HeightOf(node.left.right) {
      top := RotateRightSingle(node, t);
    } else {
      top := RotateRightDouble(node, t);
    }
  }

  method RotateLeft(node: Node, ghost t: Tree<Node>) returns (top: Node)
    requires t.Bin? && t.item == node && Rep(t) && Distinct(t) && H(t.left) + 1 < H(t.right)
    modifies Items(t)`left, Items(t)`right, Items(t)`height
    ensures Rep(LeftRotated(t)) && top == LeftRotated(t).item
  {
    TopHeight(t.right.left);
    TopHeight(t.right.right);
    if HeightOf(node.right.right) >= HeightOf(node.right.left) {
      top := RotateLeftSingle(node, t);
    } else {
      top := RotateLeftDouble(node, t);
    }
  }

  method RepairLocal(node: Node, ghost t: Tree<Node>) returns (top: Node, settled: bool)
    requires t.Bin? && t.item == node && Rep(t) && Distinct(t)
    modifies Items(t)`left, Items(t)`right, Items(t)`height
    ensures settled <==> Settled(t)
    ensures settled ==> Rep(t)
    ensures !settled ==> Rep(Repair(t)) && top == Repair(t).item
  {
    TopHeight(t.left);
    TopHeight(t.right);
    var heightleft, heightright := HeightOf(node.left), HeightOf(node.right);
    top, settled := node, false;
    if heightright + 1 < heightleft {
      top := RotateRight(node, t);
    } else if heightleft + 1 < heightright {
      top := RotateLeft(node, t);
    } else {
      var height := (if heightleft < heightright then heightright else heightleft) + 1;
      if height == node.height {
        settled := true;
      } else {
        node.height := height;
        assert Rep(t.left) && Rep(t.right);
      }
    }
  }

  class AvlTree {
    var root: Node?
    ghost var shape: Tree<Node>

    /** The heap is the tree `shape`, without sharing. */
    ghost predicate Wf()
      reads this, Items(shape)
    {
      root == Top(shape) && Rep(shape) && Distinct(shape)
    }

    ghost predicate Valid()
      reads this, Items(shape)
    {
      Wf() && Balanced(shape) && Sorted(InOrder(shape))
    }

    /** The heap is `sub` hung in the hole of `p`. */
    ghost predicate Zipped(p: Path<Node>, sub: Tree<Node>)
      reads this`root, PathItems(p), Items(sub)
    {
      root == PathTop(p, Top(sub)) && RepPath(p, Top(sub)) && Rep(sub) && Distinct(Plug(p, sub))
    }

    constructor ()
      ensures Valid() && shape == Leaf
    {
      root, shape := null, Leaf;
    }

    function Load(place: Place): Node?
      reads this`root, if place.Root? then {} else {place.parent}
    {
      match place
      case Root => root
      case LeftOf(n) => n.left
      case RightOf(n) => n.right
    }

    /** Writes the pointer in which the path `p` ends: the tree below it is replaced, the path keeps. */
    method Store(place: Place, n: Node?, ghost p: Path<Node>, ghost hole: Node?)
      requires place == PlaceOf(p, Root)
      requires PathDistinct(p) && RepPath(p, hole) && root == PathTop(p, hole)
      modifies this`root, PathItems(p)`left, PathItems(p)`right
      ensures RepPath(p, n) && root == PathTop(p, n)
    {
      match place
      case Root => root := n;
      case LeftOf(m) => m.left := n;
      case RightOf(m) => m.right := n;
    }

    /** One turn of the loop; `settled` is its early exit. */
    method RepairNode(place: Place, ghost p: Path<Node>, ghost t: Tree<Node>) returns (settled: bool)
      requires place == PlaceOf(p, Root) && t.Bin? && Zipped(p, t)
      modifies this`root, PathItems(p)`left, PathItems(p)`right, Items(t)`left, Items(t)`right, Items(t)`height
      ensures settled <==> Settled(t)
      ensures settled ==> Zipped(p, t)
      ensures !settled ==> Zipped(p, Repair(t))
    {
      PlugItems(p, t);
      var node := Load(place);
      var top;
      top, settled := RepairLocal(node, t);
      assert Same(PathItems(p));
      if !settled {
        ghost var r := Repair(t);
        RepairItems(t);
        PlugItems(p, r);
        label Repaired:
        Store(place, top, p, node);
        assert Same@Repaired(Items(r));
      }
    }

    /** One turn of the loop, in terms of the whole path. */
    method RebalanceStep(place: Place, ghost q: Path<Node>, ghost cur: Tree<Node>) returns (settled: bool)
      requires q.Down? && place == PlaceOf(q.up, Root) && Zipped(q, cur)
      modifies this`root, this`shape
      modifies PathItems(q)`left, PathItems(q)`right, PathItems(q)`height
      modifies Items(cur)`left, Items(cur)`right, Items(cur)`height
      ensures settled ==> Wf() && shape == RebalanceUp(q, cur)
      ensures !settled ==> Zipped(q.up, Repair(Join(q, cur)))
      ensures !settled ==> RebalanceUp(q.up, Repair(Join(q, cur))) == RebalanceUp(q, cur)
    {
      ghost var t := Join(q, cur);
      settled := RepairNode(place, q.up, t);
      if settled {
        RepPlug(q.up, t);
        shape := Plug(q.up, t);
      }
    }

    method Rebalance(stack: array<Place>, count: nat, ghost p: Path<Node>, ghost sub: Tree<Node>)
      requires count <= stack.Length && StackHolds(stack[..], 0, count, p, Root)
      requires Zipped(p, sub)
      modifies this`root, this`shape
      modifies PathItems(p)`left, PathItems(p)`right, PathItems(p)`height
      modifies Items(sub)`left, Items(sub)`right, Items(sub)`height
      ensures Wf() && shape == RebalanceUp(p, sub)
    {
      var i := count;
      ghost var q, cur, places := p, sub, stack[..];
      while i > 0
        invariant 0 <= i <= count && stack[..] == places && StackHolds(places, 0, i, q, Root)
        invariant Zipped(q, cur)
        invariant RebalanceUp(q, cur) == RebalanceUp(p, sub)
        invariant PathItems(q) + Items(cur) == PathItems(p) + Items(sub)
      {
        i := i - 1;
        var settled := RebalanceStep(stack[i], q, cur);
        if settled {
          return;
        }
        RepairedItems(q, cur);
        q, cur := q.up, Repair(Join(q, cur));
      }
      shape := cur;
    }

    lemma RepairedItems(q: Path<Node>, cur: Tree<Node>)
      requires q.Down?
      ensures PathItems(q.up) + Items(Repair(Join(q, cur))) == PathItems(q) + Items(cur)
    {
      RepairItems(Join(q, cur));
    }

    ghost predicate StackFor(stack: array<Place>, count: nat, p: Path<Node>)
      reads stack
    {
      stack.Length == JK_AVL_MAX_HEIGHT && count <= stack.Length && StackHolds(stack[..], 0, count, p, Root)
    }

    lemma ZipAt(p: Path<Node>, t: Tree<Node>)
      requires Wf() && Plug(p, t) == shape
      ensures Zipped(p, t)
    {
      RepPlug(p, t);
    }

    /** Records one more place of the descent: the stack then follows the path that is longer by one node. */
    method Push(stack: array<Place>, count: nat, place: Place, ghost p: Path<Node>, ghost frame: Path<Node>)
      requires Wf() && StackFor(stack, count, p) && count < stack.Length
      requires frame.Down? && frame.up == p && place == PlaceOf(p, Root)
      modifies stack
      ensures Wf() && StackFor(stack, count + 1, frame)
    {
      ghost var before := stack[..];
      stack[count] := place;
      assert Same(Items(shape));
      StackKept(before, stack[..], 0, count, p, Root);
    }

    /** The first loop of jk_avl_insert: down to the empty place for `key`. */
    method DescendToLeaf(key: nat, stack: array<Place>) returns (place: Place, count: nat, ghost p: Path<Node>)
      requires Wf() && Balanced(shape) && H(shape) <= JK_AVL_MAX_HEIGHT && stack.Length == JK_AVL_MAX_HEIGHT
      modifies stack
      ensures p == LeafDescent(Here, shape, key) && place == PlaceOf(p, Root)
      ensures StackFor(stack, count, p) && Plug(p, Leaf) == shape && Wf()
    {
      place, count, p := Root, 0, Here;
      ghost var cur := shape;
      ZipAt(p, cur);
      var node := Load(place);
      while node != null
        invariant LeafDescent(p, cur, key) == LeafDescent(Here, shape, key)
        invariant Wf() && Plug(p, cur) == shape && place == PlaceOf(p, Root) && node == Top(cur)
        invariant StackFor(stack, count, p)
        invariant Balanced(cur) && count + H(cur) <= H(shape)
        decreases cur
      {
        ZipAt(p, cur);
        if key < node.key {
          ghost var q := Down(p, cur.item, cur.key, cur.h, true, cur.right);
          Push(stack, count, place, p, q);
          place, p, cur := LeftOf(node), q, cur.left;
        } else {
          ghost var q := Down(p, cur.item, cur.key, cur.h, false, cur.left);
          Push(stack, count, place, p, q);
          place, p, cur := RightOf(node), q, cur.right;
        }
        count := count + 1;
        ZipAt(p, cur);
        node := Load(place);
      }
    }

    /** Makes the new node a leaf and hangs it in the empty place where the descent ended. */
    method Hang(newNode: Node, place: Place, ghost p: Path<Node>)
      requires Wf() && Plug(p, Leaf) == shape && place == PlaceOf(p, Root) && newNode !in Items(shape)
      modifies this`root, PathItems(p)`left, PathItems(p)`right
      modifies newNode`left, newNode`right, newNode`height
      ensures Zipped(p, Single(newNode, newNode.key))
    {
      ZipAt(p, Leaf);
      PlugItems(p, Leaf);
      PlugItems(p, Single(newNode, newNode.key));
      newNode.left := null;
      newNode.right := null;
      newNode.height := 1;
      assert Same(PathItems(p));
      Store(place, newNode, p, null);
    }

    /**
     jk_avl_insert. The new node goes after every node that is not greater and before every
     greater one; the tree stays balanced. The height bound is that of the path stack.
     */
    method Insert(newNode: Node)
      requires Valid() && newNode !in Items(shape) && H(shape) <= JK_AVL_MAX_HEIGHT
      modifies this`root, this`shape, Items(shape)`left, Items(shape)`right, Items(shape)`height
      modifies newNode`left, newNode`right, newNode`height
      ensures Valid() && Items(shape) == old(Items(shape)) + {newNode}
      ensures InOrder(shape) == InsertSorted(old(InOrder(shape)), Elem(newNode, newNode.key))
      ensures shape == Inserted(old(shape), newNode, newNode.key)
    {
      var stack := new Place[JK_AVL_MAX_HEIGHT](_ => Root);
      var place, count, p := DescendToLeaf(newNode.key, stack);
      PlugItems(p, Leaf);
      InsertedCorrect(shape, newNode, newNode.key);
      Hang(newNode, place, p);
      Rebalance(stack, count, p, Single(newNode, newNode.key));
    }

    /** The first loop of jk_avl_remove: down to the first node with `key`, whose place is pushed as well. */
    method DescendToKey(key: nat, stack: array<Place>)
      returns (place: Place, count: nat, ghost p: Path<Node>, ghost x: Tree<Node>)
      requires Wf() && Balanced(shape) && H(shape) <= JK_AVL_MAX_HEIGHT && stack.Length == JK_AVL_MAX_HEIGHT
      requires Found(shape, key).Bin?
      modifies stack
      ensures (p, x) == KeyDescent(Here, shape, key) && place == PlaceOf(p, Root)
      ensures Wf() && Plug(p, x) == shape && x.Bin? && Balanced(x)
      ensures StackFor(stack, count, Down(p, x.item, x.key, x.h, true, x.right)) && count + H(x) <= H(shape) + 1
    {
      place, count, p := Root, 0, Here;
      x := shape;
      while true
        invariant KeyDescent(p, x, key) == KeyDescent(Here, shape, key)
        invariant Wf() && Plug(p, x) == shape && place == PlaceOf(p, Root)
        invariant StackFor(stack, count, p)
        invariant Balanced(x) && count + H(x) <= H(shape)
        decreases x
      {
        ZipAt(p, x);
        var node := Load(place);
        ghost var l := Down(p, x.item, x.key, x.h, true, x.right);
        ghost var r := Down(p, x.item, x.key, x.h, false, x.left);
        if key == node.key {
          Push(stack, count, place, p, l);
          count := count + 1;
          return;
        }
        if key < node.key {
          Push(stack, count, place, p, l);
          place, p, x := LeftOf(node), l, x.left;
        } else {
          Push(stack, count, place, p, r);
          place, p, x := RightOf(node), r, x.right;
        }
        count := count + 1;
      }
    }

    lemma BelowAt(z: Node, q: Path<Node>, m: Tree<Node>)
      requires Wf() && z in Items(shape) && Plug(q, m) == SubtreeAt(shape, z).left && m.Bin?
      ensures z.key == SubtreeAt(shape, z).key && z.left == Top(Plug(q, m)) && z.right == Top(SubtreeAt(shape, z).right)
      ensures Rep(m) && m.item.right == Top(m.right) && m.item.left == Top(m.left)
    {
      RepSubtree(shape, z);
      RepPlug(q, m);
    }

    /** Records one more place of the second descent; the first `lo` slots still follow the path to the deleted node. */
    method PushBelow(stack: array<Place>, lo: nat, count: nat, place: Place, base: Place,
                     ghost f: Path<Node>, ghost q: Path<Node>, ghost frame: Path<Node>)
      requires Wf() && StackFor(stack, lo, f) && lo <= count < stack.Length && StackHolds(stack[..], lo, count, q, base)
      requires frame.Down? && frame.up == q && place == PlaceOf(q, base)
      modifies stack
      ensures Wf() && StackFor(stack, lo, f) && StackHolds(stack[..], lo, count + 1, frame, base)
    {
      ghost var before := stack[..];
      stack[count] := place;
      assert Same(Items(shape));
      StackKept(before, stack[..], 0, lo, f, Root);
      StackKept(before, stack[..], lo, count, q, base);
    }

    /** The second loop: from the deleted node's left child along right children to its predecessor. */
    method DescendToLast(z: Node, stack: array<Place>, lo: nat, ghost f: Path<Node>, ghost s: Tree<Node>)
      returns (place: Place, count: nat, pred: Node, ghost q: Path<Node>, ghost m: Tree<Node>)
      requires Wf() && StackFor(stack, lo, f)
      requires z in Items(shape) && s == SubtreeAt(shape, z) && s.left.Bin?
      requires Balanced(s) && lo + H(s) <= JK_AVL_MAX_HEIGHT + 1
      modifies stack
      ensures Wf() && (q, m) == LastDescent(Here, s.left)
      ensures place == PlaceOf(q, LeftOf(z)) && pred == m.item
      ensures StackFor(stack, lo, f) && count < stack.Length
      ensures StackHolds(stack[..], lo, count, q, LeftOf(z))
    {
      place, count, q, m := LeftOf(z), lo, Here, s.left;
      BelowAt(z, q, m);
      pred := z.left;
      while pred.right != null
        invariant Wf() && StackFor(stack, lo, f)
        invariant lo <= count < stack.Length && StackHolds(stack[..], lo, count, q, LeftOf(z))
        invariant m.Bin? && Plug(q, m) == s.left && LastDescent(q, m) == LastDescent(Here, s.left)
        invariant pred == m.item && place == PlaceOf(q, LeftOf(z))
        invariant Balanced(m) && count + H(m) <= JK_AVL_MAX_HEIGHT
        decreases m
      {
        BelowAt(z, q, m);
        ghost var frame := Down(q, m.item, m.key, m.h, false, m.left);
        PushBelow(stack, lo, count, place, LeftOf(z), f, q, frame);
        place, q, m := RightOf(pred), frame, m.right;
        count := count + 1;
        BelowAt(z, q, m);
        pred := pred.right;
      }
      BelowAt(z, q, m);
    }

    /** Writes a pointer inside the left subtree of `z`: the root of that subtree, or one further down. */
    method StoreBelow(z: Node, place: Place, n: Node?, ghost q: Path<Node>, ghost hole: Node?)
      requires place == PlaceOf(q, LeftOf(z))
      requires PathDistinct(q) && z !in PathItems(q) && RepPath(q, hole) && z.left == PathTop(q, hole)
      modifies z`left, PathItems(q)`left, PathItems(q)`right
      ensures RepPath(q, n) && z.left == PathTop(q, n)
    {
      match place
      case LeftOf(m) => m.left := n;
      case RightOf(m) => m.right := n;
    }

    /** Takes the predecessor out of the left subtree: its own left subtree takes its place there. */
    method UnlinkPredecessor(z: Node, place: Place, pred: Node,
                             ghost s: Tree<Node>, ghost q: Path<Node>, ghost m: Tree<Node>)
      requires s.Bin? && s.item == z && s.left.Bin? && Rep(s) && Distinct(s)
      requires (q, m) == LastDescent(Here, s.left) && pred == m.item && place == PlaceOf(q, LeftOf(z))
      modifies z`left, PathItems(q)`left, PathItems(q)`right
      ensures RepPath(q, Top(m.left)) && Rep(m.left) && Rep(s.right)
      ensures z.left == PathTop(q, Top(m.left)) && z.right == Top(s.right) && z.height == s.h && pred.key == m.key
    {
      LastDescentFacts(Here, s.left);
      PlugItems(q, m);
      RepPlug(q, m);
      StoreBelow(z, place, pred.left, q, pred);
      assert Same(Items(m.left)) && Same(Items(s.right));
    }

    /** The predecessor gets the children and the height of `z`. */
    method TakePredecessor(z: Node, place: Place, pred: Node,
                           ghost s: Tree<Node>, ghost q: Path<Node>, ghost m: Tree<Node>)
      requires s.Bin? && s.item == z && s.left.Bin? && Rep(s) && Distinct(s)
      requires (q, m) == LastDescent(Here, s.left) && pred == m.item && place == PlaceOf(q, LeftOf(z))
      modifies z`left, PathItems(q)`left, PathItems(q)`right, pred`left, pred`right, pred`height
      ensures RepPath(q, Top(m.left)) && Rep(m.left) && Rep(s.right)
      ensures pred.key == m.key && pred.height == s.h
      ensures pred.left == PathTop(q, Top(m.left)) && pred.right == Top(s.right)
    {
      UnlinkPredecessor(z, place, pred, s, q, m);
      LastDescentFacts(Here, s.left);
      PlugItems(q, m);
      CopyLinks(pred, z, q, Top(m.left), m.left, s.right);
    }

    /** The node gets the links and the height of another; what hangs elsewhere stays. */
    method CopyLinks(node: Node, from: Node, ghost q: Path<Node>, ghost hole: Node?,
                     ghost l: Tree<Node>, ghost r: Tree<Node>)
      requires node != from && node !in PathItems(q) && node !in Items(l) && node !in Items(r)
      requires RepPath(q, hole) && Rep(l) && Rep(r)
      modifies node`left, node`right, node`height
      ensures RepPath(q, hole) && Rep(l) && Rep(r)
      ensures node.left == from.left && node.right == from.right && node.height == from.height
    {
      node.left := from.left;
      node.right := from.right;
      node.height := from.height;
      assert Same(PathItems(q)) && Same(Items(l)) && Same(Items(r));
    }

    /** What the first loop of removal leaves: the place found, and `z` at or below it. */
    ghost predicate Located(z: Node, p: Path<Node>, x: Tree<Node>, s: Tree<Node>)
      reads this, Items(shape)
    {
      && Wf() && z in Items(shape) && s == SubtreeAt(shape, z)
      && x.Bin? && Plug(p, x) == shape && Items(s) <= Items(x)
    }

    lemma LocatedFacts(z: Node, p: Path<Node>, x: Tree<Node>, s: Tree<Node>)
      requires Located(z, p, x, s)
      ensures s.Bin? && s.item == z && Rep(s) && Distinct(s)
      ensures PathDistinct(p) && RepPath(p, x.item) && root == PathTop(p, x.item)
      ensures PathItems(p) !! Items(s) && PathItems(p) <= Items(shape) && Items(s) <= Items(shape)
      ensures var (q, sub) := Spliced(p, s); Distinct(Plug(q, sub))
    {
      RepSubtree(shape, z);
      RepPlug(p, x);
      PlugItems(p, x);
      SplicedItems(p, s);
    }

    /** A node without a left child is replaced by its right subtree. */
    method CutOut(z: Node, place: Place, ghost p: Path<Node>, ghost x: Tree<Node>, ghost s: Tree<Node>)
      requires Located(z, p, x, s) && s.left.Leaf? && place == PlaceOf(p, Root)
      modifies this`root, PathItems(p)`left, PathItems(p)`right
      ensures Zipped(p, s.right)
    {
      LocatedFacts(z, p, x, s);
      assert Rep(s.right);
      Store(place, z.right, p, x.item);
      assert Same(Items(s.right));
    }

    /** The path to the place and what hangs below it have no node in common. */
    lemma MoveFacts(z: Node, p: Path<Node>, x: Tree<Node>, s: Tree<Node>, q: Path<Node>, m: Tree<Node>)
      requires Located(z, p, x, s) && s.left.Bin? && (q, m) == LastDescent(Here, s.left)
      ensures s.Bin? && s.item == z && Rep(s) && Distinct(s)
      ensures PathDistinct(p) && RepPath(p, x.item) && root == PathTop(p, x.item)
      ensures PathItems(p) !! PathItems(q) && PathItems(p) !! Items(m.left) && PathItems(p) !! Items(s.right)
      ensures m.item !in PathItems(p) && z !in PathItems(p)
      ensures Distinct(Plug(Extend(Down(p, m.item, m.key, s.h, true, s.right), q), m.left))
    {
      LocatedFacts(z, p, x, s);
      LastDescentFacts(Here, s.left);
      PlugItems(q, m);
    }

    /** The predecessor moves into the place of the deleted node. */
    method MovePredecessor(z: Node, place: Place, below: Place, pred: Node, ghost p: Path<Node>, ghost x: Tree<Node>,
                           ghost s: Tree<Node>, ghost q: Path<Node>, ghost m: Tree<Node>)
      requires Located(z, p, x, s) && s.left.Bin? && place == PlaceOf(p, Root)
      requires (q, m) == LastDescent(Here, s.left) && pred == m.item && below == PlaceOf(q, LeftOf(z))
      modifies this`root, PathItems(p)`left, PathItems(p)`right
      modifies z`left, PathItems(q)`left, PathItems(q)`right, pred`left, pred`right, pred`height
      ensures Zipped(Extend(Down(p, pred, m.key, s.h, true, s.right), q), m.left)
    {
      MoveFacts(z, p, x, s, q, m);
      TakePredecessor(z, below, pred, s, q, m);
      assert Same(PathItems(p));
      StoreAround(place, pred, p, x.item, q, Top(m.left), m.left, s.right);
      ghost var p' := Down(p, pred, m.key, s.h, true, s.right);
      RepExtend(p', q, Top(m.left));
    }

    /** Store, where nothing that hangs below is written. */
    method StoreAround(place: Place, n: Node, ghost p: Path<Node>, ghost hole: Node?,
                       ghost q: Path<Node>, ghost below: Node?, ghost l: Tree<Node>, ghost r: Tree<Node>)
      requires place == PlaceOf(p, Root)
      requires PathDistinct(p) && RepPath(p, hole) && root == PathTop(p, hole)
      requires n !in PathItems(p) && PathItems(p) !! PathItems(q)
      requires PathItems(p) !! Items(l) && PathItems(p) !! Items(r)
      requires RepPath(q, below) && Rep(l) && Rep(r)
      modifies this`root, PathItems(p)`left, PathItems(p)`right
      ensures RepPath(p, n) && root == PathTop(p, n)
      ensures RepPath(q, below) && Rep(l) && Rep(r) && unchanged(n)
    {
      Store(place, n, p, hole);
      assert Same(PathItems(q)) && Same(Items(l)) && Same(Items(r));
    }

    /** The code path for a node without a left child. */
    method RemoveWithoutLeft(z: Node, place: Place, stack: array<Place>, count: nat,
                             ghost p: Path<Node>, ghost x: Tree<Node>, ghost s: Tree<Node>)
      requires Located(z, p, x, s) && s.left.Leaf? && place == PlaceOf(p, Root) && StackFor(stack, count, p)
      modifies this`root, this`shape, Items(shape)`left, Items(shape)`right, Items(shape)`height
      ensures Wf() && shape == RebalanceUp(Spliced(p, s).0, Spliced(p, s).1)
    {
      LocatedFacts(z, p, x, s);
      CutOut(z, place, p, x, s);
      Rebalance(stack, count, p, s.right);
    }

    /** The code path for a node with a left child: the predecessor takes its place. */
    method RemoveWithLeft(z: Node, place: Place, stack: array<Place>, count: nat,
                          ghost p: Path<Node>, ghost f: Path<Node>, ghost x: Tree<Node>, ghost s: Tree<Node>)
      requires Located(z, p, x, s) && s.left.Bin? && place == PlaceOf(p, Root)
      requires StackFor(stack, count, f) && f.Down? && f.up == p
      requires Balanced(s) && count + H(s) <= JK_AVL_MAX_HEIGHT + 1
      modifies this`root, this`shape, Items(shape)`left, Items(shape)`right, Items(shape)`height, stack
      ensures Wf() && shape == RebalanceUp(Spliced(p, s).0, Spliced(p, s).1)
    {
      var below, n, pred;
      ghost var q, m;
      below, n, pred, q, m := DescendToLast(z, stack, count, f, s);
      ghost var p' := Down(p, pred, m.key, s.h, true, s.right);
      ghost var nodes := Items(shape);
      SpliceWithin(z, p, x, s, q, m);
      MovePredecessor(z, place, below, pred, p, x, s, q, m);
      RewriteSlot(stack, count, pred, n, LeftOf(z), nodes, f, p', q, m.left);
      Rebalance(stack, n, Extend(p', q), m.left);
    }

    lemma SlotRewritten(s: seq<Place>, c: nat, n: nat, f: Path<Node>, p': Path<Node>, q: Path<Node>, base: Place)
      requires c < |s| && n <= |s|
      requires f.Down? && p'.Down? && f.up == p'.up && p'.goLeft
      requires StackHolds(s, 0, c, f, Root) && StackHolds(s, c, n, q, base)
      ensures StackHolds(s[c := LeftOf(p'.item)], 0, n, Extend(p', q), Root)
    {
      StackSpliced(s, c, n, p', q, base, LeftOf(p'.item));
    }

    /** The place recorded below the deleted node was inside that node; it is recorded anew, inside its replacement
        `pred`, through which the stack then runs. Only the stack is written. */
    method RewriteSlot(stack: array<Place>, c: nat, pred: Node, ghost n: nat, ghost base: Place, ghost nodes: set<Node>,
                       ghost f: Path<Node>, ghost p: Path<Node>, ghost q: Path<Node>, ghost sub: Tree<Node>)
      requires c < stack.Length && n <= stack.Length
      requires f.Down? && p.Down? && f.up == p.up && p.goLeft && p.item == pred
      requires StackHolds(stack[..], 0, c, f, Root) && StackHolds(stack[..], c, n, q, base)
      requires Zipped(Extend(p, q), sub) && PathItems(Extend(p, q)) + Items(sub) <= nodes
      modifies stack
      ensures stack[..] == old(stack[..])[c := LeftOf(pred)] && Zipped(Extend(p, q), sub)
      ensures StackHolds(stack[..], 0, n, Extend(p, q), Root)
    {
      SlotRewritten(stack[..], c, n, f, p, q, base);
      stack[c] := LeftOf(pred);
      assert Same(nodes);
      assert Same(PathItems(Extend(p, q))) && Same(Items(sub));
    }

    lemma SpliceWithin(z: Node, p: Path<Node>, x: Tree<Node>, s: Tree<Node>, q: Path<Node>, m: Tree<Node>)
      requires Located(z, p, x, s) && s.left.Bin? && (q, m) == LastDescent(Here, s.left)
      ensures z in Items(shape) && m.item in Items(shape)
      ensures PathItems(p) <= Items(shape) && PathItems(q) <= Items(shape)
      ensures var p' := Down(p, m.item, m.key, s.h, true, s.right);
        PathItems(Extend(p', q)) + Items(m.left) <= Items(shape)
    {
      LocatedFacts(z, p, x, s);
      LastDescentFacts(Here, s.left);
      PlugItems(q, m);
      ExtendItems(Down(p, m.item, m.key, s.h, true, s.right), q);
    }

    lemma KeyOf(z: Node)
      requires Wf() && z in Items(shape)
      ensures SubtreeAt(shape, z).key == z.key
      ensures z.left == null <==> SubtreeAt(shape, z).left.Leaf?
    {
      RepSubtree(shape, z);
    }

    /** What the first loop of removal finds for `z`. */
    lemma FoundLocated(z: Node, p: Path<Node>, x: Tree<Node>)
      requires Wf() && Sorted(InOrder(shape)) && z in Items(shape) && (p, x) == KeyDescent(Here, shape, z.key)
      requires Balanced(x) && Plug(p, x) == shape
      ensures x.Bin? && Located(z, p, x, SubtreeAt(shape, z))
      ensures Balanced(SubtreeAt(shape, z)) && H(SubtreeAt(shape, z)) <= H(x)
    {
      KeyOf(z);
      KeyDescentReaches(Here, shape, z);
    }

    /** Takes out `z`, by whichever path of the code its left child calls for. */
    method RemoveAt(z: Node, place: Place, stack: array<Place>, count: nat, ghost p: Path<Node>, ghost x: Tree<Node>)
      requires z in Items(shape) && Located(z, p, x, SubtreeAt(shape, z)) && place == PlaceOf(p, Root)
      requires Balanced(SubtreeAt(shape, z)) && H(SubtreeAt(shape, z)) <= H(x)
      requires StackFor(stack, count, Down(p, x.item, x.key, x.h, true, x.right))
      requires count + H(x) <= JK_AVL_MAX_HEIGHT + 1
      modifies this`root, this`shape, Items(shape)`left, Items(shape)`right, Items(shape)`height, stack
      ensures var (q, sub) := Spliced(p, SubtreeAt(old(shape), z)); Wf() && shape == RebalanceUp(q, sub)
    {
      ghost var s := SubtreeAt(shape, z);
      KeyOf(z);
      if z.left == null {
        RemoveWithoutLeft(z, place, stack, count - 1, p, x, s);
      } else {
        RemoveWithLeft(z, place, stack, count, p, Down(p, x.item, x.key, x.h, true, x.right), x, s);
      }
    }

    /**
     jk_avl_remove. When the key search finds the very node `z`, the result is the old sequence
     with exactly `z` dropped, and the tree stays balanced with the right heights. When it finds
     another node with the same key, that other node is lost.
     */
    method Remove(z: Node)
      requires Valid() && z in Items(shape) && H(shape) <= JK_AVL_MAX_HEIGHT
      modifies this`root, this`shape, Items(shape)`left, Items(shape)`right, Items(shape)`height
      ensures Wf() && z in old(Items(shape)) && shape == Removed(old(shape), z)
      ensures old(Found(shape, z.key)).Bin?
      ensures old(Found(shape, z.key)).item == z ==>
        Valid() && InOrder(shape) == Without(old(InOrder(shape)), z) && Items(shape) == old(Items(shape)) - {z}
      ensures old(Found(shape, z.key)).item != z ==>
        old(Found(shape, z.key)).item in old(Items(shape)) && old(Found(shape, z.key)).item !in Items(shape)
      ensures Items(shape) <= old(Items(shape)) - {z}
    {
      KeyOf(z);
      RemovedFor(shape, z);
      var stack := new Place[JK_AVL_MAX_HEIGHT](_ => Root);
      var place, count;
      ghost var p, x;
      place, count, p, x := DescendToKey(z.key, stack);
      FoundLocated(z, p, x);
      RemoveAt(z, place, stack, count, p, x);
    }

    /** jk_avl_find_min: the first node of the sequence. */
    method FindMin() returns (node: Node?)
      requires Valid()
      ensures Valid() && (node == null <==> InOrder(shape) == [])
      ensures node != null ==> InOrder(shape)[0] == Elem(node as Node, node.key) && node in Items(shape)
    {
      node := root;
      ghost var p: Path<Node>, t := Here, shape;
      ItemsAllocated(shape);
      ZipAt(p, t);
      while node != null
        invariant Plug(p, t) == shape && Before(p) == [] && node == Top(t)
        invariant t.Leaf? ==> p.Here?
        invariant Zipped(p, t)
        decreases t
      {
        if node.left == null {
          PlugInOrder(p, t);
          PlugItems(p, t);
          break;
        }
        p, t := Down(p, t.item, t.key, t.h, true, t.right), t.left;
        node := node.left;
      }
    }

    /** jk_avl_find_max: the last node of the sequence. */
    method FindMax() returns (node: Node?)
      requires Valid()
      ensures Valid() && (node == null <==> InOrder(shape) == [])
      ensures node != null ==>
        InOrder(shape)[|InOrder(shape)| - 1] == Elem(node as Node, node.key) && node in Items(shape)
    {
      node := root;
      ghost var p: Path<Node>, t := Here, shape;
      ItemsAllocated(shape);
      ZipAt(p, t);
      while node != null
        invariant Plug(p, t) == shape && After(p) == [] && node == Top(t)
        invariant t.Leaf? ==> p.Here?
        invariant Zipped(p, t)
        decreases t
      {
        if node.right == null {
          PlugInOrder(p, t);
          PlugItems(p, t);
          break;
        }
        p, t := Down(p, t.item, t.key, t.h, false, t.left), t.right;
        node := node.right;
      }
    }

    /** jk_avl_find_node: the topmost node with the key, null exactly when there is none. */
    method FindNode(key: nat) returns (node: Node?)
      requires Valid()
      ensures Valid() && node == Top(Found(shape, key))
      ensures node == null <==> !HasKey(InOrder(shape), key)
      ensures node != null ==> node.key == key && node in Items(shape)
    {
      node := root;
      ghost var p: Path<Node>, t := Here, shape;
      ItemsAllocated(shape);
      ZipAt(p, t);
      FoundNone(Here, shape, key);
      while node != null
        invariant Plug(p, t) == shape && node == Top(t) && Zipped(p, t)
        invariant KeyDescent(p, t, key) == KeyDescent(Here, shape, key)
        decreases t
      {
        if node.key == key {
          PlugItems(p, t);
          return;
        } else if node.key > key {
          p, t := Down(p, t.item, t.key, t.h, true, t.right), t.left;
          node := node.left;
        } else {
          p, t := Down(p, t.item, t.key, t.h, false, t.left), t.right;
          node := node.right;
        }
      }
    }
  }

  /** What is said of `r` as the tree `t` after the removal of `z`, of the given key. */
  ghost predicate Removes(t: Tree<Node>, z: Node, key: nat, r: Tree<Node>) {
    var x := Found(t, key);
    && x.Bin? && Items(r) <= Items(t) - {z}
    && (x.item == z ==>
      Balanced(r) && Sorted(InOrder(r)) && InOrder(r) == Without(InOrder(t), z) && Items(r) == Items(t) - {z})
    && (x.item != z ==> x.item in Items(t) && x.item !in Items(r))
  }

  lemma RemovedFor(t: Tree<Node>, z: Node)
    requires Balanced(t) && Sorted(InOrder(t)) && Distinct(t) && z in Items(t)
    ensures Removes(t, z, SubtreeAt(t, z).key, Removed(t, z))
  {
    var k := SubtreeAt(t, z).key;
    RemovedItems(t, z);
    KeyDescentPlugs(Here, t, k);
    PlugItems(KeyDescent(Here, t, k).0, Found(t, k));
    if Found(t, k).item == z {
      RemovedExactly(t, z);
    }
  }

  lemma {:induction false} RepSubtree(t: Tree<Node>, z: Node)
    requires Rep(t) && z in Items(t)
    ensures Rep(SubtreeAt(t, z))
  {
    if t.item == z {
    } else {
      if z in Items(t.left) {
        RepSubtree(t.left, z);
      } else {
        RepSubtree(t.right, z);
      }
    }
  }

  lemma {:induction false} RepExtend(p: Path<Node>, q: Path<Node>, hole: Node?)
    ensures RepPath(Extend(p, q), hole) <==> RepPath(p, PathTop(q, hole)) && RepPath(q, hole)
    ensures PathTop(Extend(p, q), hole) == PathTop(p, PathTop(q, hole))
  {
    if q.Here? {
    } else {
      RepExtend(p, q.up, q.item);
    }
  }

  /** Rewriting one slot turns the stack through the deleted node into one through its replacement. */
  lemma {:induction false} StackSpliced(s: seq<Place>, c: nat, n: nat, p: Path<Node>, q: Path<Node>,
                                        base: Place, base': Place)
    requires c < |s| && n <= |s|
    requires p.Down? && p.goLeft && base' == LeftOf(p.item)
    requires StackHolds(s, 0, c, p, Root) && StackHolds(s, c, n, q, base)
    ensures StackHolds(s[c := base'], 0, n, Extend(p, q), Root)
  {
    if q.Here? {
      StackKept(s, s[c := base'], 0, c, p, Root);
    } else {
      StackSpliced(s, c, n - 1, p, q.up, base, base');
      StackDepth(s, c, n - 1, q.up, base);
    }
  }
}
