/**
 The value level of the AVL tree: trees with recorded heights, the zipper that the
 descent of jk_avl.c leaves on its stack, and the bottom-up repair as functions.
 The heap level (module Avl) is proved against these functions; what they promise
 about order, heights and balance is proved here, for every tree and every path.
 */
module AvlShape {
  const JK_AVL_MAX_HEIGHT := 41

  datatype Elem<T> = Elem(item: T, key: nat)

  // `h` is the height recorded in the node, which need not be the true height.
  datatype Tree<T> = Leaf | Bin(left: Tree<T>, item: T, key: nat, h: nat, right: Tree<T>)

  // The way from the root down to a hole, outermost frame innermost in the datatype:
  // each Down is one visited node, the side taken there, and the subtree not taken.
  datatype Path<T> = Here | Down(up: Path<T>, item: T, key: nat, h: nat, goLeft: bool, other: Tree<T>)

  function H<T>(t: Tree<T>): nat {
    if t.Leaf? then 0 else t.h
  }

  function Max(a: nat, b: nat): nat {
    if a < b then b else a
  }

  predicate Close(a: nat, b: nat) {
    a <= b + 1 && b <= a + 1
  }

  /** Every recorded height is right and every node is balanced. */
  ghost predicate Balanced<T>(t: Tree<T>) {
    t.Bin? ==>
      && Balanced(t.left) && Balanced(t.right)
      && t.h == 1 + Max(H(t.left), H(t.right))
      && Close(H(t.left), H(t.right))
  }

  ghost function TrueHeight<T>(t: Tree<T>): nat {
    if t.Leaf? then 0 else 1 + Max(TrueHeight(t.left), TrueHeight(t.right))
  }

  ghost function InOrder<T>(t: Tree<T>): seq<Elem<T>> {
    if t.Leaf? then [] else InOrder(t.left) + [Elem(t.item, t.key)] + InOrder(t.right)
  }

  /** Weak order: equal keys may stand next to each other. */
  ghost predicate Sorted<T>(s: seq<Elem<T>>) {
    forall i, j :: 0 <= i < j < |s| ==> s[i].key <= s[j].key
  }

  lemma SortedPieces<T>(a: seq<Elem<T>>, e: Elem<T>, b: seq<Elem<T>>)
    requires Sorted(a + [e] + b)
    ensures Sorted(a) && Sorted(b)
    ensures forall i :: 0 <= i < |a| ==> a[i].key <= e.key
    ensures forall i :: 0 <= i < |b| ==> b[i].key >= e.key
  {
    var s, n := a + [e] + b, |a|;
    assert s[n] == e;
    forall i | 0 <= i < n
      ensures s[i] == a[i]
    {
    }
    forall i | 0 <= i < |b|
      ensures s[n + 1 + i] == b[i]
    {
    }
  }

  ghost function Join<T>(p: Path<T>, sub: Tree<T>): (t: Tree<T>)
    requires p.Down?
    ensures t.Bin? && t.item == p.item && t.h == p.h
  {
    if p.goLeft then Bin(sub, p.item, p.key, p.h, p.other) else Bin(p.other, p.item, p.key, p.h, sub)
  }

  ghost function Plug<T>(p: Path<T>, sub: Tree<T>): Tree<T> {
    if p.Here? then sub else Plug(p.up, Join(p, sub))
  }

  ghost function Before<T>(p: Path<T>): seq<Elem<T>> {
    if p.Here? then []
    else if p.goLeft then Before(p.up)
    else Before(p.up) + InOrder(p.other) + [Elem(p.item, p.key)]
  }

  ghost function After<T>(p: Path<T>): seq<Elem<T>> {
    if p.Here? then []
    else if p.goLeft then [Elem(p.item, p.key)] + InOrder(p.other) + After(p.up)
    else After(p.up)
  }

  ghost function Len<T>(p: Path<T>): nat {
    if p.Here? then 0 else 1 + Len(p.up)
  }

  /** Frames `q` hung below the hole of `p`. */
  ghost function Extend<T>(p: Path<T>, q: Path<T>): Path<T> {
    if q.Here? then p else Down(Extend(p, q.up), q.item, q.key, q.h, q.goLeft, q.other)
  }

  lemma RegroupAround<T>(p: Path<T>, s: seq<Elem<T>>)
    requires p.Down?
    ensures var e, o := [Elem(p.item, p.key)], InOrder(p.other);
      Before(p.up) + (if p.goLeft then s + e + o else o + e + s) + After(p.up) == Before(p) + s + After(p)
  {
    var e, o := [Elem(p.item, p.key)], InOrder(p.other);
    if p.goLeft {
      RegroupLeft(Before(p.up), s, e, o, After(p.up));
    } else {
      RegroupRight(Before(p.up), s, e, o, After(p.up));
    }
  }

  lemma RegroupLeft<E>(b: seq<E>, s: seq<E>, e: seq<E>, o: seq<E>, a: seq<E>)
    ensures b + (s + e + o) + a == b + s + (e + o + a)
  {
  }

  lemma RegroupRight<E>(b: seq<E>, s: seq<E>, e: seq<E>, o: seq<E>, a: seq<E>)
    ensures b + (o + e + s) + a == (b + o + e) + s + a
  {
  }

  lemma {:induction false} PlugInOrder<T>(p: Path<T>, sub: Tree<T>)
    ensures InOrder(Plug(p, sub)) == Before(p) + InOrder(sub) + After(p)
  {
    if p.Here? {
      assert [] + InOrder(sub) + [] == InOrder(sub);
    } else {
      PlugInOrder(p.up, Join(p, sub));
      RegroupAround(p, InOrder(sub));
    }
  }

  lemma {:induction false} PlugExtend<T>(p: Path<T>, q: Path<T>, sub: Tree<T>)
    ensures Plug(Extend(p, q), sub) == Plug(p, Plug(q, sub))
    ensures Len(Extend(p, q)) == Len(p) + Len(q)
  {
    if q.Here? {
    } else {
      PlugExtend(p, q.up, Join(q, sub));
    }
  }

  // ---------- Balance along a path ----------

  /** Every frame is balanced and records the right height, if the subtree in the hole has height `hole`. */
  ghost predicate PathBalanced<T>(p: Path<T>, hole: nat) {
    p.Down? ==>
      && PathBalanced(p.up, p.h)
      && Balanced(p.other)
      && Close(hole, H(p.other))
      && p.h == 1 + Max(hole, H(p.other))
  }

  lemma {:induction false} PlugBalanced<T>(p: Path<T>, sub: Tree<T>)
    ensures Balanced(Plug(p, sub)) <==> PathBalanced(p, H(sub)) && Balanced(sub)
  {
    if p.Here? {
    } else {
      PlugBalanced(p.up, Join(p, sub));
    }
  }

  lemma {:induction false} PathFits<T>(p: Path<T>, sub: Tree<T>)
    requires PathBalanced(p, H(sub))
    ensures Len(p) + H(sub) <= H(Plug(p, sub))
  {
    if p.Here? {
    } else {
      PathFits(p.up, Join(p, sub));
    }
  }

  lemma {:induction false} ExtendBalanced<T>(p: Path<T>, q: Path<T>, sub: Tree<T>)
    requires PathBalanced(q, H(sub)) && PathBalanced(p, H(Plug(q, sub)))
    ensures PathBalanced(Extend(p, q), H(sub))
  {
    if q.Here? {
    } else {
      ExtendBalanced(p, q.up, Join(q, sub));
    }
  }

  lemma {:induction false} RecordedIsTrue<T>(t: Tree<T>)
    requires Balanced(t)
    ensures TrueHeight(t) == H(t)
  {
    if t.Leaf? {
    } else {
      RecordedIsTrue(t.left);
      RecordedIsTrue(t.right);
    }
  }

  // ---------- The repair of one node ----------

  ghost function RightRotated<T>(t: Tree<T>): (r: Tree<T>)
    requires t.Bin? && H(t.right) + 1 < H(t.left)
    ensures r.Bin?
  {
    var l := t.left;
    if H(l.left) >= H(l.right) then
      Bin(l.left, l.item, l.key, 2 + H(l.right), Bin(l.right, t.item, t.key, 1 + H(l.right), t.right))
    else
      var m := l.right;
      Bin(Bin(l.left, l.item, l.key, m.h, m.left), m.item, m.key, l.h, Bin(m.right, t.item, t.key, m.h, t.right))
  }

  ghost function LeftRotated<T>(t: Tree<T>): (r: Tree<T>)
    requires t.Bin? && H(t.left) + 1 < H(t.right)
    ensures r.Bin?
  {
    var r := t.right;
    if H(r.right) >= H(r.left) then
      Bin(Bin(t.left, t.item, t.key, 1 + H(r.left), r.left), r.item, r.key, 2 + H(r.left), r.right)
    else
      var m := r.left;
      Bin(Bin(t.left, t.item, t.key, m.h, m.left), m.item, m.key, r.h, Bin(m.right, r.item, r.key, m.h, r.right))
  }

  ghost function Repair<T>(t: Tree<T>): (r: Tree<T>)
    requires t.Bin?
    ensures r.Bin?
  {
    if H(t.right) + 1 < H(t.left) then RightRotated(t)
    else if H(t.left) + 1 < H(t.right) then LeftRotated(t)
    else t.(h := 1 + Max(H(t.left), H(t.right)))
  }

  /** The loop of jk_avl_rebalance leaves at a node whose height needs no change. */
  ghost predicate Settled<T>(t: Tree<T>) {
    t.Bin? && Close(H(t.left), H(t.right)) && t.h == 1 + Max(H(t.left), H(t.right))
  }

  ghost function RebalanceUp<T>(p: Path<T>, sub: Tree<T>): Tree<T> {
    if p.Here? then sub
    else
      var t := Join(p, sub);
      if Settled(t) then Plug(p.up, t) else RebalanceUp(p.up, Repair(t))
  }

  /** One elementary rotation; the recorded heights do not matter to the order. */
  lemma TurnInOrder<T>(l: Tree<T>, r: Tree<T>)
    requires l.Bin? && r.Bin? && l.left.Bin? && r.right.Bin?
    requires l.left.left == r.left && l.left.right == r.right.left && l.right == r.right.right
    requires l.left.item == r.item && l.item == r.right.item && l.left.key == r.key && l.key == r.right.key
    ensures InOrder(l) == InOrder(r)
  {
    var a, b, c := InOrder(r.left), InOrder(r.right.left), InOrder(l.right);
    var x, y := [Elem(r.item, r.key)], [Elem(l.item, l.key)];
    assert (a + x + b) + y + c == a + x + (b + y + c);
  }

  lemma RepairKeepsInOrder<T>(t: Tree<T>)
    requires t.Bin?
    ensures InOrder(Repair(t)) == InOrder(t)
  {
    if H(t.right) + 1 < H(t.left) {
      var l := t.left;
      if H(l.left) < H(l.right) {
        var m := l.right;
        var l' := Bin(Bin(l.left, l.item, l.key, m.h, m.left), m.item, m.key, 0, m.right);
        TurnInOrder(l', l);
        TurnInOrder(t.(left := l'), RightRotated(t));
      } else {
        TurnInOrder(t, RightRotated(t));
      }
    } else if H(t.left) + 1 < H(t.right) {
      var r := t.right;
      if H(r.right) < H(r.left) {
        var m := r.left;
        var r' := Bin(m.left, m.item, m.key, 0, Bin(m.right, r.item, r.key, m.h, r.right));
        TurnInOrder(r, r');
        TurnInOrder(LeftRotated(t), t.(right := r'));
      } else {
        TurnInOrder(LeftRotated(t), t);
      }
    }
  }

  lemma RotateRightBalances<T>(t: Tree<T>)
    requires t.Bin? && Balanced(t.left) && Balanced(t.right) && H(t.left) == H(t.right) + 2
    ensures Balanced(RightRotated(t)) && H(t.left) <= H(RightRotated(t)) <= 1 + H(t.left)
  {
  }

  lemma RotateLeftBalances<T>(t: Tree<T>)
    requires t.Bin? && Balanced(t.left) && Balanced(t.right) && H(t.right) == H(t.left) + 2
    ensures Balanced(LeftRotated(t)) && H(t.right) <= H(LeftRotated(t)) <= 1 + H(t.right)
  {
  }

  lemma RepairBalances<T>(t: Tree<T>)
    requires t.Bin? && Balanced(t.left) && Balanced(t.right)
    requires H(t.left) <= H(t.right) + 2 && H(t.right) <= H(t.left) + 2
    ensures Balanced(Repair(t))
    ensures Max(H(t.left), H(t.right)) <= H(Repair(t)) <= 1 + Max(H(t.left), H(t.right))
  {
    if H(t.right) + 1 < H(t.left) {
      RotateRightBalances(t);
    } else if H(t.left) + 1 < H(t.right) {
      RotateLeftBalances(t);
    }
  }

  /** The early exit and every rotation keep the in-order sequence, balanced or not. */
  lemma {:induction false} RebalanceKeepsInOrder<T>(p: Path<T>, sub: Tree<T>)
    ensures InOrder(RebalanceUp(p, sub)) == InOrder(Plug(p, sub))
  {
    if p.Here? {
    } else {
      var t := Join(p, sub);
      if !Settled(t) {
        RepairKeepsInOrder(t);
        RebalanceKeepsInOrder(p.up, Repair(t));
        PlugInOrder(p.up, t);
        PlugInOrder(p.up, Repair(t));
      }
    }
  }

  /**
   If only the subtree in the hole changed and its height moved by at most one, the
   bottom-up loop leaves the whole tree balanced with the right heights: also when it
   stops early at the first settled node.
   */
  lemma {:induction false} RebalanceBalances<T>(p: Path<T>, sub: Tree<T>, oldHeight: nat)
    requires PathBalanced(p, oldHeight) && Balanced(sub) && Close(H(sub), oldHeight)
    ensures Balanced(RebalanceUp(p, sub))
  {
    if p.Here? {
    } else {
      var t := Join(p, sub);
      if Settled(t) {
        PlugBalanced(p.up, t);
      } else {
        RepairBalances(t);
        RebalanceBalances(p.up, Repair(t), p.h);
      }
    }
  }

  // ---------- Items ----------

  ghost function Items<T>(t: Tree<T>): set<T> {
    if t.Leaf? then {} else Items(t.left) + {t.item} + Items(t.right)
  }

  ghost function PathItems<T>(p: Path<T>): set<T> {
    if p.Here? then {} else PathItems(p.up) + {p.item} + Items(p.other)
  }

  /** No item occurs twice. */
  ghost predicate Distinct<T>(t: Tree<T>) {
    t.Bin? ==>
      && Distinct(t.left) && Distinct(t.right)
      && Items(t.left) !! Items(t.right)
      && t.item !in Items(t.left) && t.item !in Items(t.right)
  }

  ghost predicate PathDistinct<T>(p: Path<T>) {
    p.Down? ==>
      && PathDistinct(p.up) && Distinct(p.other)
      && p.item !in PathItems(p.up) && p.item !in Items(p.other)
      && Items(p.other) !! PathItems(p.up)
  }

  lemma {:induction false} PlugItems<T>(p: Path<T>, sub: Tree<T>)
    ensures Items(Plug(p, sub)) == PathItems(p) + Items(sub)
    ensures Distinct(Plug(p, sub)) <==> PathDistinct(p) && Distinct(sub) && PathItems(p) !! Items(sub)
  {
    if p.Here? {
    } else {
      PlugItems(p.up, Join(p, sub));
    }
  }

  lemma {:induction false} ExtendItems<T>(p: Path<T>, q: Path<T>)
    ensures PathItems(Extend(p, q)) == PathItems(p) + PathItems(q)
    ensures PathDistinct(Extend(p, q)) <==> PathDistinct(p) && PathDistinct(q) && PathItems(p) !! PathItems(q)
  {
    if q.Here? {
    } else {
      ExtendItems(p, q.up);
    }
  }

  /** One elementary rotation; the recorded heights do not matter to the items. */
  lemma TurnItems<T>(l: Tree<T>, r: Tree<T>)
    requires l.Bin? && r.Bin? && l.left.Bin? && r.right.Bin?
    requires l.left.left == r.left && l.left.right == r.right.left && l.right == r.right.right
    requires l.left.item == r.item && l.item == r.right.item
    ensures Items(l) == Items(r) && (Distinct(l) <==> Distinct(r))
  {
    assert Items(l.left) == Items(r.left) + {r.item} + Items(r.right.left);
    assert Items(r.right) == Items(r.right.left) + {l.item} + Items(l.right);
  }

  lemma RotateRightItems<T>(t: Tree<T>)
    requires t.Bin? && H(t.right) + 1 < H(t.left)
    ensures Items(RightRotated(t)) == Items(t)
    ensures Distinct(t) ==> Distinct(RightRotated(t))
  {
    var l := t.left;
    if H(l.left) < H(l.right) {
      var m := l.right;
      var l' := Bin(Bin(l.left, l.item, l.key, m.h, m.left), m.item, m.key, 0, m.right);
      TurnItems(l', l);
      TurnItems(t.(left := l'), RightRotated(t));
    } else {
      TurnItems(t, RightRotated(t));
    }
  }

  lemma RotateLeftItems<T>(t: Tree<T>)
    requires t.Bin? && H(t.left) + 1 < H(t.right)
    ensures Items(LeftRotated(t)) == Items(t)
    ensures Distinct(t) ==> Distinct(LeftRotated(t))
  {
    var r := t.right;
    if H(r.right) < H(r.left) {
      var m := r.left;
      var r' := Bin(m.left, m.item, m.key, 0, Bin(m.right, r.item, r.key, m.h, r.right));
      TurnItems(r, r');
      TurnItems(LeftRotated(t), t.(right := r'));
    } else {
      TurnItems(LeftRotated(t), t);
    }
  }

  lemma RepairItems<T>(t: Tree<T>)
    requires t.Bin?
    ensures Items(Repair(t)) == Items(t)
    ensures Distinct(t) ==> Distinct(Repair(t))
  {
    if H(t.right) + 1 < H(t.left) {
      RotateRightItems(t);
    } else if H(t.left) + 1 < H(t.right) {
      RotateLeftItems(t);
    }
  }

  lemma {:induction false} RebalanceItems<T>(p: Path<T>, sub: Tree<T>)
    requires Distinct(Plug(p, sub))
    ensures Items(RebalanceUp(p, sub)) == PathItems(p) + Items(sub)
    ensures Distinct(RebalanceUp(p, sub))
  {
    PlugItems(p, sub);
    if p.Here? {
    } else {
      var t := Join(p, sub);
      PlugItems(p.up, t);
      if !Settled(t) {
        RepairItems(t);
        PlugItems(p.up, Repair(t));
        RebalanceItems(p.up, Repair(t));
      }
    }
  }

  lemma {:induction false} ItemAmong<T>(t: Tree<T>, i: nat)
    requires i < |InOrder(t)|
    ensures InOrder(t)[i].item in Items(t)
  {
    var l := InOrder(t.left);
    if i < |l| {
      ItemAmong(t.left, i);
    } else if i > |l| {
      ItemAmong(t.right, i - |l| - 1);
    }
  }

  lemma {:induction false} ItemsInOrder<T>(t: Tree<T>, x: T)
    ensures x in Items(t) <==> exists i :: 0 <= i < |InOrder(t)| && InOrder(t)[i].item == x
  {
    if t.Leaf? {
    } else {
      var l, r := InOrder(t.left), InOrder(t.right);
      ItemsInOrder(t.left, x);
      ItemsInOrder(t.right, x);
      if x in Items(t.left) {
        var i :| 0 <= i < |l| && l[i].item == x;
        assert InOrder(t)[i].item == x;
      }
      if x == t.item {
        assert InOrder(t)[|l|].item == x;
      }
      if x in Items(t.right) {
        var i :| 0 <= i < |r| && r[i].item == x;
        assert InOrder(t)[|l| + 1 + i].item == x;
      }
      if i :| 0 <= i < |InOrder(t)| && InOrder(t)[i].item == x {
        ItemAmong(t, i);
      }
    }
  }

  // ---------- Insertion ----------

  ghost function UpTo<T>(s: seq<Elem<T>>, k: nat): seq<Elem<T>> {
    if s == [] then [] else if s[0].key <= k then [s[0]] + UpTo(s[1..], k) else UpTo(s[1..], k)
  }

  ghost function Past<T>(s: seq<Elem<T>>, k: nat): seq<Elem<T>> {
    if s == [] then [] else if s[0].key > k then [s[0]] + Past(s[1..], k) else Past(s[1..], k)
  }

  /** The stable sorted insertion: after everything that is not greater. */
  ghost function InsertSorted<T>(s: seq<Elem<T>>, e: Elem<T>): seq<Elem<T>> {
    UpTo(s, e.key) + [e] + Past(s, e.key)
  }

  lemma {:induction false} SplitAt<T>(a: seq<Elem<T>>, b: seq<Elem<T>>, k: nat)
    requires AllUpTo(a, k) && AllPast(b, k)
    ensures UpTo(a + b, k) == a && Past(a + b, k) == b
  {
    if a == [] {
      assert a + b == b;
      NoneUpTo(b, k);
    } else {
      assert (a + b)[1..] == a[1..] + b;
      SplitAt(a[1..], b, k);
    }
  }

  /** Where the insertion descent ends: the path to the empty place for key `k`. */
  ghost function LeafDescent<T>(p: Path<T>, t: Tree<T>, k: nat): Path<T>
    decreases t
  {
    if t.Leaf? then p
    else if k < t.key then LeafDescent(Down(p, t.item, t.key, t.h, true, t.right), t.left, k)
    else LeafDescent(Down(p, t.item, t.key, t.h, false, t.left), t.right, k)
  }

  ghost function Single<T>(x: T, k: nat): Tree<T> {
    Bin(Leaf, x, k, 1, Leaf)
  }

  lemma SingleInOrder<T>(x: T, k: nat)
    ensures InOrder(Single(x, k)) == [Elem(x, k)]
  {
    var l: Tree<T> := Leaf;
    assert InOrder(l) == [];
    assert [] + [Elem(x, k)] + [] == [Elem(x, k)];
  }

  ghost function Inserted<T>(t: Tree<T>, x: T, k: nat): Tree<T> {
    RebalanceUp(LeafDescent(Here, t, k), Single(x, k))
  }

  ghost predicate AllUpTo<T>(s: seq<Elem<T>>, k: nat) {
    forall i :: 0 <= i < |s| ==> s[i].key <= k
  }

  ghost predicate AllPast<T>(s: seq<Elem<T>>, k: nat) {
    forall i :: 0 <= i < |s| ==> s[i].key > k
  }

  /** The descent leaves everything up to `k` before the place and everything past `k` after it. */
  lemma {:induction false} LeafDescentSplits<T>(p: Path<T>, t: Tree<T>, k: nat)
    requires Sorted(InOrder(t)) && AllUpTo(Before(p), k) && AllPast(After(p), k)
    ensures AllUpTo(Before(LeafDescent(p, t, k)), k) && AllPast(After(LeafDescent(p, t, k)), k)
    decreases t
  {
    if t.Leaf? {
    } else {
      SortedPieces(InOrder(t.left), Elem(t.item, t.key), InOrder(t.right));
      if k < t.key {
        LeafDescentSplits(Down(p, t.item, t.key, t.h, true, t.right), t.left, k);
      } else {
        LeafDescentSplits(Down(p, t.item, t.key, t.h, false, t.left), t.right, k);
      }
    }
  }

  lemma {:induction false} LeafDescentPlugs<T>(p: Path<T>, t: Tree<T>, k: nat)
    ensures Plug(LeafDescent(p, t, k), Leaf) == Plug(p, t)
    decreases t
  {
    if t.Leaf? {
    } else {
      if k < t.key {
        LeafDescentPlugs(Down(p, t.item, t.key, t.h, true, t.right), t.left, k);
      } else {
        LeafDescentPlugs(Down(p, t.item, t.key, t.h, false, t.left), t.right, k);
      }
    }
  }

  lemma InsertedInOrder<T>(t: Tree<T>, x: T, k: nat)
    requires Sorted(InOrder(t))
    ensures InOrder(Inserted(t, x, k)) == InsertSorted(InOrder(t), Elem(x, k))
  {
    var q := LeafDescent(Here, t, k);
    LeafDescentSplits(Here, t, k);
    LeafDescentPlugs(Here, t, k);
    PlugInOrder(q, Leaf);
    PlugInOrder(q, Single(x, k));
    assert Before(q) + [] + After(q) == Before(q) + After(q);
    SplitAt(Before(q), After(q), k);
    RebalanceKeepsInOrder(q, Single(x, k));
    SingleInOrder(x, k);
  }

  lemma InsertedBalanced<T>(t: Tree<T>, x: T, k: nat)
    requires Balanced(t)
    ensures Balanced(Inserted(t, x, k))
  {
    var q := LeafDescent(Here, t, k);
    LeafDescentPlugs(Here, t, k);
    PlugBalanced(q, Leaf);
    RebalanceBalances(q, Single(x, k), 0);
  }

  lemma InsertedItems<T>(t: Tree<T>, x: T, k: nat)
    requires Distinct(t) && x !in Items(t)
    ensures Distinct(Inserted(t, x, k)) && Items(Inserted(t, x, k)) == Items(t) + {x}
  {
    var q := LeafDescent(Here, t, k);
    LeafDescentPlugs(Here, t, k);
    PlugItems(q, Leaf);
    PlugItems(q, Single(x, k));
    RebalanceItems(q, Single(x, k));
  }

  lemma {:induction false} NoneUpTo<T>(s: seq<Elem<T>>, k: nat)
    requires AllPast(s, k)
    ensures UpTo(s, k) == [] && Past(s, k) == s
  {
    if s == [] {
    } else {
      NoneUpTo(s[1..], k);
    }
  }

  lemma {:induction false} UpToBound<T>(s: seq<Elem<T>>, k: nat)
    ensures AllUpTo(UpTo(s, k), k)
  {
    if s == [] {
    } else {
      UpToBound(s[1..], k);
    }
  }

  lemma {:induction false} PastBound<T>(s: seq<Elem<T>>, k: nat)
    ensures AllPast(Past(s, k), k)
  {
    if s == [] {
    } else {
      PastBound(s[1..], k);
    }
  }

  lemma {:induction false} SplitJoins<T>(s: seq<Elem<T>>, k: nat)
    requires Sorted(s)
    ensures UpTo(s, k) + Past(s, k) == s
  {
    if s == [] {
    } else {
      if s[0].key > k {
        NoneUpTo(s[1..], k);
      } else {
        SplitJoins(s[1..], k);
      }
    }
  }

  lemma InsertSortedSorted<T>(s: seq<Elem<T>>, e: Elem<T>)
    requires Sorted(s)
    ensures Sorted(InsertSorted(s, e))
  {
    UpToBound(s, e.key);
    PastBound(s, e.key);
    SplitJoins(s, e.key);
    var a, b, r := UpTo(s, e.key), Past(s, e.key), InsertSorted(s, e);
    forall i, j | 0 <= i < j < |r|
      ensures r[i].key <= r[j].key
    {
      if j < |a| || |a| < i {
        var i', j' := if i < |a| then i else i - 1, if j < |a| then j else j - 1;
        assert r[i] == s[i'] && r[j] == s[j'];
      }
    }
  }

  /** The new element stands behind all that are not greater and before all that are. */
  lemma InsertSortedPlace<T>(s: seq<Elem<T>>, e: Elem<T>) returns (n: nat)
    requires Sorted(s)
    ensures n <= |s| && InsertSorted(s, e) == s[..n] + [e] + s[n..]
    ensures forall i :: 0 <= i < |s| ==> (i < n <==> s[i].key <= e.key)
  {
    n := |UpTo(s, e.key)|;
    UpToBound(s, e.key);
    PastBound(s, e.key);
    SplitJoins(s, e.key);
    var a, b := UpTo(s, e.key), Past(s, e.key);
    assert s[..n] == a && s[n..] == b;
    assert forall i :: n <= i < |s| ==> s[i] == b[i - n];
  }

  /** Insertion is the stable sorted insertion and gives a balanced tree with the right heights. */
  lemma InsertedCorrect<T>(t: Tree<T>, x: T, k: nat)
    requires Balanced(t) && Sorted(InOrder(t)) && Distinct(t) && x !in Items(t)
    ensures var r := Inserted(t, x, k);
      && InOrder(r) == InsertSorted(InOrder(t), Elem(x, k))
      && Sorted(InOrder(r)) && Balanced(r) && Distinct(r) && Items(r) == Items(t) + {x}
  {
    InsertedInOrder(t, x, k);
    InsertedBalanced(t, x, k);
    InsertedItems(t, x, k);
    InsertSortedSorted(InOrder(t), Elem(x, k));
  }

  // ---------- Removal ----------

  /** The subtree found first on the way down for key `k`, and the path to it. */
  ghost function KeyDescent<T>(p: Path<T>, t: Tree<T>, k: nat): (Path<T>, Tree<T>)
    decreases t
  {
    if t.Leaf? || t.key == k then (p, t)
    else if k < t.key then KeyDescent(Down(p, t.item, t.key, t.h, true, t.right), t.left, k)
    else KeyDescent(Down(p, t.item, t.key, t.h, false, t.left), t.right, k)
  }

  ghost function Found<T>(t: Tree<T>, k: nat): Tree<T> {
    KeyDescent(Here, t, k).1
  }

  ghost function SubtreeAt<T>(t: Tree<T>, z: T): (s: Tree<T>)
    requires z in Items(t)
    ensures s.Bin? && s.item == z && Items(s) <= Items(t)
    ensures Distinct(t) ==> Distinct(s)
    ensures Balanced(t) ==> Balanced(s) && H(s) <= H(t)
  {
    if t.item == z then t
    else if z in Items(t.left) then SubtreeAt(t.left, z)
    else SubtreeAt(t.right, z)
  }

  /** The way along the right children of `t` to its last node, and the subtree there. */
  ghost function LastDescent<T>(p: Path<T>, t: Tree<T>): (r: (Path<T>, Tree<T>))
    requires t.Bin?
    ensures r.1.Bin? && r.1.right.Leaf?
    decreases t
  {
    if t.right.Leaf? then (p, t)
    else LastDescent(Down(p, t.item, t.key, t.h, false, t.left), t.right)
  }

  /** What jk_avl_remove hands to the rebalancing loop when it overwrites the place at the
      end of `p` with what remains of `s` without its top node. */
  ghost function Spliced<T>(p: Path<T>, s: Tree<T>): (Path<T>, Tree<T>)
    requires s.Bin?
  {
    if s.left.Leaf? then (p, s.right)
    else
      var (q, m) := LastDescent(Here, s.left);
      (Extend(Down(p, m.item, m.key, s.h, true, s.right), q), m.left)
  }

  /** jk_avl_remove(z): the place overwritten is the one the key leads to, the node taken apart is `z`. */
  ghost function Removed<T>(t: Tree<T>, z: T): Tree<T>
    requires z in Items(t)
  {
    var s := SubtreeAt(t, z);
    var (q, sub) := Spliced(KeyDescent(Here, t, s.key).0, s);
    RebalanceUp(q, sub)
  }

  ghost function Without<T>(s: seq<Elem<T>>, z: T): seq<Elem<T>> {
    if s == [] then [] else if s[0].item == z then Without(s[1..], z) else [s[0]] + Without(s[1..], z)
  }

  lemma {:induction false} WithoutConcat<T>(a: seq<Elem<T>>, b: seq<Elem<T>>, z: T)
    ensures Without(a + b, z) == Without(a, z) + Without(b, z)
  {
    if a == [] {
      assert a + b == b;
    } else {
      assert (a + b)[1..] == a[1..] + b;
      WithoutConcat(a[1..], b, z);
    }
  }

  lemma {:induction false} WithoutAbsent<T>(s: seq<Elem<T>>, z: T)
    requires forall i :: 0 <= i < |s| ==> s[i].item != z
    ensures Without(s, z) == s
  {
    if s == [] {
    } else {
      WithoutAbsent(s[1..], z);
    }
  }

  lemma {:induction false} LastDescentFacts<T>(p: Path<T>, t: Tree<T>)
    requires t.Bin?
    ensures var (q, m) := LastDescent(p, t);
      && Plug(q, m) == Plug(p, t)
      && After(q) == After(p)
    decreases t
  {
    if t.right.Leaf? {
    } else {
      LastDescentFacts(Down(p, t.item, t.key, t.h, false, t.left), t.right);
    }
  }

  lemma {:induction false} KeyDescentPlugs<T>(p: Path<T>, t: Tree<T>, k: nat)
    ensures var (q, x) := KeyDescent(p, t, k);
      && Plug(q, x) == Plug(p, t)
      && (x.Bin? ==> x.key == k)
    decreases t
  {
    if t.Leaf? || t.key == k {
    } else {
      if k < t.key {
        KeyDescentPlugs(Down(p, t.item, t.key, t.h, true, t.right), t.left, k);
      } else {
        KeyDescentPlugs(Down(p, t.item, t.key, t.h, false, t.left), t.right, k);
      }
    }
  }

  lemma {:induction false} SubtreeKeyOccurs<T>(t: Tree<T>, z: T) returns (i: nat)
    requires z in Items(t)
    ensures i < |InOrder(t)| && InOrder(t)[i] == Elem(z, SubtreeAt(t, z).key)
  {
    if t.item == z {
      i := |InOrder(t.left)|;
    } else if z in Items(t.left) {
      i := SubtreeKeyOccurs(t.left, z);
    } else {
      i := SubtreeKeyOccurs(t.right, z);
      i := i + |InOrder(t.left)| + 1;
    }
  }

  ghost predicate HasKey<T>(s: seq<Elem<T>>, k: nat) {
    exists i :: 0 <= i < |s| && s[i].key == k
  }

  lemma HasKeyPieces<T>(a: seq<Elem<T>>, e: Elem<T>, b: seq<Elem<T>>, k: nat)
    ensures HasKey(a + [e] + b, k) <==> HasKey(a, k) || e.key == k || HasKey(b, k)
  {
    var s := a + [e] + b;
    if HasKey(a, k) {
      var i :| 0 <= i < |a| && a[i].key == k;
      assert s[i].key == k;
    }
    if e.key == k {
      assert s[|a|].key == k;
    }
    if HasKey(b, k) {
      var i :| 0 <= i < |b| && b[i].key == k;
      assert s[|a| + 1 + i].key == k;
    }
  }

  /** The descent finds nothing exactly when no element has the key. */
  lemma {:induction false} FoundNone<T>(p: Path<T>, t: Tree<T>, k: nat)
    requires Sorted(InOrder(t))
    ensures KeyDescent(p, t, k).1.Bin? <==> HasKey(InOrder(t), k)
    decreases t
  {
    if t.Leaf? {
    } else {
      var l, r := InOrder(t.left), InOrder(t.right);
      SortedPieces(l, Elem(t.item, t.key), r);
      HasKeyPieces(l, Elem(t.item, t.key), r, k);
      if k < t.key {
        FoundNone(Down(p, t.item, t.key, t.h, true, t.right), t.left, k);
      } else if t.key < k {
        FoundNone(Down(p, t.item, t.key, t.h, false, t.left), t.right, k);
      }
    }
  }

  /** The node found first for z's key has z at or below it. */
  lemma {:induction false} KeyDescentReaches<T>(p: Path<T>, t: Tree<T>, z: T)
    requires Sorted(InOrder(t)) && Distinct(t) && z in Items(t)
    ensures var x := KeyDescent(p, t, SubtreeAt(t, z).key).1;
      && x.Bin? && z in Items(x) && SubtreeAt(x, z) == SubtreeAt(t, z)
    decreases t
  {
    var k := SubtreeAt(t, z).key;
    if t.key == k {
    } else {
      SortedPieces(InOrder(t.left), Elem(t.item, t.key), InOrder(t.right));
      if z in Items(t.left) {
        var i := SubtreeKeyOccurs(t.left, z);
        KeyDescentReaches(Down(p, t.item, t.key, t.h, true, t.right), t.left, z);
      } else {
        var i := SubtreeKeyOccurs(t.right, z);
        KeyDescentReaches(Down(p, t.item, t.key, t.h, false, t.left), t.right, z);
      }
    }
  }

  lemma Regroup<T>(a: seq<T>, b: seq<T>, c: seq<T>)
    ensures a + (b + c + []) + [] == (a + b) + c && a + b + [] == a + b
  {
  }

  lemma Regroup4<T>(a: seq<T>, b: seq<T>, c: seq<T>, d: seq<T>, e: seq<T>)
    ensures a + b + (c + d + e) == a + (b + c) + d + e
  {
  }

  lemma SplicedInOrder<T>(p: Path<T>, s: Tree<T>)
    requires s.Bin?
    ensures var (q, sub) := Spliced(p, s);
      InOrder(Plug(q, sub)) == Before(p) + InOrder(s.left) + InOrder(s.right) + After(p)
  {
    if s.left.Leaf? {
      PlugInOrder(p, s.right);
      assert Before(p) + [] == Before(p);
    } else {
      var (q, m) := LastDescent(Here, s.left);
      var p' := Down(p, m.item, m.key, s.h, true, s.right);
      var e, rest := [Elem(m.item, m.key)], Before(q) + InOrder(m.left);
      LastDescentFacts(Here, s.left);
      PlugInOrder(q, m);
      PlugInOrder(q, m.left);
      PlugExtend(p', q, m.left);
      PlugInOrder(p', Plug(q, m.left));
      Regroup(Before(q), InOrder(m.left), e);
      Regroup4(Before(p), rest, e, InOrder(s.right), After(p));
    }
  }

  lemma SplicedBalanced<T>(p: Path<T>, s: Tree<T>)
    requires s.Bin? && Balanced(s) && PathBalanced(p, s.h)
    ensures var (q, sub) := Spliced(p, s);
      Balanced(sub) && PathBalanced(q, H(sub) + 1)
  {
    if s.left.Bin? {
      var (q, m) := LastDescent(Here, s.left);
      LastDescentFacts(Here, s.left);
      PlugBalanced(q, m);
      ExtendBalanced(Down(p, m.item, m.key, s.h, true, s.right), q, m);
    }
  }

  lemma SplicedItems<T>(p: Path<T>, s: Tree<T>)
    requires s.Bin? && Distinct(s) && PathDistinct(p) && PathItems(p) !! Items(s)
    ensures var (q, sub) := Spliced(p, s);
      Distinct(Plug(q, sub)) && Items(Plug(q, sub)) == PathItems(p) + (Items(s) - {s.item})
  {
    if s.left.Leaf? {
      PlugItems(p, s.right);
    } else {
      var (q, m) := LastDescent(Here, s.left);
      var p' := Down(p, m.item, m.key, s.h, true, s.right);
      LastDescentFacts(Here, s.left);
      PlugItems(q, m);
      PlugItems(q, m.left);
      PlugExtend(p', q, m.left);
      PlugItems(p', Plug(q, m.left));
    }
  }

  lemma {:induction false} PathSequences<T>(p: Path<T>)
    ensures forall i :: 0 <= i < |Before(p)| ==> Before(p)[i].item in PathItems(p)
    ensures forall i :: 0 <= i < |After(p)| ==> After(p)[i].item in PathItems(p)
  {
    if p.Here? {
    } else {
      PathSequences(p.up);
      forall i | 0 <= i < |InOrder(p.other)|
        ensures InOrder(p.other)[i].item in PathItems(p)
      {
        ItemsInOrder(p.other, InOrder(p.other)[i].item);
      }
    }
  }

  lemma TreeSequence<T>(t: Tree<T>)
    ensures forall i :: 0 <= i < |InOrder(t)| ==> InOrder(t)[i].item in Items(t)
  {
    forall i | 0 <= i < |InOrder(t)|
      ensures InOrder(t)[i].item in Items(t)
    {
      ItemsInOrder(t, InOrder(t)[i].item);
    }
  }

  lemma WithoutHead<T>(e: Elem<T>, b: seq<Elem<T>>)
    ensures Without([e] + b, e.item) == Without(b, e.item)
  {
    assert ([e] + b)[1..] == b;
  }

  lemma WithoutMiddle<T>(a: seq<Elem<T>>, e: Elem<T>, b: seq<Elem<T>>)
    requires forall i :: 0 <= i < |a| ==> a[i].item != e.item
    requires forall i :: 0 <= i < |b| ==> b[i].item != e.item
    ensures Without(a + ([e] + b), e.item) == a + b
  {
    var tail := [e] + b;
    WithoutConcat(a, tail, e.item);
    WithoutAbsent(a, e.item);
    WithoutAbsent(b, e.item);
    WithoutHead(e, b);
  }

  lemma Regroup5<T>(a: seq<T>, b: seq<T>, c: seq<T>, d: seq<T>, e: seq<T>)
    ensures a + (b + c + d) + e == (a + b) + (c + (d + e))
    ensures a + b + d + e == (a + b) + (d + e)
  {
  }

  /** The sequence of a tree without repetitions has none. */
  lemma {:induction false} DistinctSequence<T>(t: Tree<T>)
    requires Distinct(t)
    ensures forall i, j :: 0 <= i < j < |InOrder(t)| ==> InOrder(t)[i].item != InOrder(t)[j].item
  {
    if t.Leaf? {
    } else {
      DistinctSequence(t.left);
      DistinctSequence(t.right);
      TreeSequence(t.left);
      TreeSequence(t.right);
    }
  }

  /** In a tree without repetitions, dropping one node's item drops just that place of the sequence. */
  lemma WithoutTop<T>(p: Path<T>, s: Tree<T>)
    requires s.Bin? && Distinct(s) && PathItems(p) !! Items(s)
    ensures Without(InOrder(Plug(p, s)), s.item) == Before(p) + InOrder(s.left) + InOrder(s.right) + After(p)
  {
    PlugInOrder(p, s);
    PathSequences(p);
    TreeSequence(s.left);
    TreeSequence(s.right);
    Regroup5(Before(p), InOrder(s.left), [Elem(s.item, s.key)], InOrder(s.right), After(p));
    WithoutMiddle(Before(p) + InOrder(s.left), Elem(s.item, s.key), InOrder(s.right) + After(p));
  }

  lemma {:induction false} WithoutKeeps<T>(s: seq<Elem<T>>, z: T, i: nat) returns (j: nat)
    requires i < |s| && s[i].item != z
    ensures j < |Without(s, z)| && Without(s, z)[j] == s[i]
  {
    if i == 0 {
      j := 0;
    } else {
      j := WithoutKeeps(s[1..], z, i - 1);
      j := if s[0].item == z then j else j + 1;
    }
  }

  lemma {:induction false} WithoutSelects<T>(s: seq<Elem<T>>, z: T)
    ensures forall e :: e in Without(s, z) ==> e in s
  {
    if s == [] {
    } else {
      WithoutSelects(s[1..], z);
    }
  }

  lemma {:induction false} WithoutSorted<T>(s: seq<Elem<T>>, z: T)
    requires Sorted(s)
    ensures Sorted(Without(s, z))
  {
    if s == [] {
    } else {
      var r := Without(s[1..], z);
      WithoutSorted(s[1..], z);
      WithoutSelects(s[1..], z);
      assert forall i :: 0 <= i < |r| ==> r[i] in s[1..];
    }
  }

  /** What is in the tree after a removal, whatever the search has found: all that is outside the subtree found, and
      what hung below the node to delete. */
  lemma RemovedInOrder<T>(t: Tree<T>, z: T)
    requires z in Items(t)
    ensures var s := SubtreeAt(t, z); var p := KeyDescent(Here, t, s.key).0;
      InOrder(Removed(t, z)) == Before(p) + InOrder(s.left) + InOrder(s.right) + After(p)
  {
    var s := SubtreeAt(t, z);
    var p := KeyDescent(Here, t, s.key).0;
    var (q, sub) := Spliced(p, s);
    SplicedInOrder(p, s);
    RebalanceKeepsInOrder(q, sub);
  }

  lemma {:induction false} SubtreeInOrder<T>(t: Tree<T>, z: T) returns (a: seq<Elem<T>>, b: seq<Elem<T>>)
    requires z in Items(t)
    ensures InOrder(t) == a + InOrder(SubtreeAt(t, z)) + b
  {
    var l, e, r := InOrder(t.left), [Elem(t.item, t.key)], InOrder(t.right);
    if t.item == z {
      a, b := [], [];
    } else if z in Items(t.left) {
      a, b := SubtreeInOrder(t.left, z);
      var s := InOrder(SubtreeAt(t, z));
      assert (a + s + b) + e + r == a + s + (b + e + r);
      b := b + e + r;
    } else {
      a, b := SubtreeInOrder(t.right, z);
      var s := InOrder(SubtreeAt(t, z));
      assert l + e + (a + s + b) == (l + e + a) + s + b;
      a := l + e + a;
    }
  }

  lemma SortedWithout<T>(a: seq<Elem<T>>, b: seq<Elem<T>>, c: seq<Elem<T>>)
    requires Sorted(a + b + c)
    ensures Sorted(a + c)
  {
    var s, r, n := a + b + c, a + c, |a|;
    forall i, j | 0 <= i < j < |r|
      ensures r[i].key <= r[j].key
    {
      var i', j' := if i < n then i else i + |b|, if j < n then j else j + |b|;
      assert r[i] == s[i'] && r[j] == s[j'];
    }
  }

  /** A sorted tree stays sorted, also when the search finds another node. */
  lemma RemovedSorted<T>(t: Tree<T>, z: T)
    requires Sorted(InOrder(t)) && Distinct(t) && z in Items(t)
    ensures Sorted(InOrder(Removed(t, z)))
  {
    var s := SubtreeAt(t, z);
    var (p, x) := KeyDescent(Here, t, s.key);
    KeyDescentReaches(Here, t, z);
    KeyDescentPlugs(Here, t, s.key);
    PlugInOrder(p, x);
    RemovedInOrder(t, z);
    var a, b := SubtreeInOrder(x, z);
    SortedSplice(Before(p), a, InOrder(s.left), [Elem(s.item, s.key)], InOrder(s.right), b, After(p));
  }

  lemma SortedSplice<T>(f: seq<Elem<T>>, a: seq<Elem<T>>, l: seq<Elem<T>>, e: seq<Elem<T>>, r: seq<Elem<T>>,
                        b: seq<Elem<T>>, g: seq<Elem<T>>)
    requires Sorted(f + (a + (l + e + r) + b) + g)
    ensures Sorted(f + l + r + g)
  {
    assert f + (a + (l + e + r) + b) + g == f + a + (l + e + r + b + g);
    SortedWithout(f, a, l + e + r + b + g);
    assert f + (l + e + r + b + g) == (f + l) + e + (r + b + g);
    SortedWithout(f + l, e, r + b + g);
    assert (f + l) + (r + b + g) == (f + l + r) + b + g;
    SortedWithout(f + l + r, b, g);
  }

  lemma RemovedItems<T>(t: Tree<T>, z: T)
    requires Sorted(InOrder(t)) && Distinct(t) && z in Items(t)
    ensures var x := Found(t, SubtreeAt(t, z).key);
      && x.Bin? && z in Items(x)
      && Distinct(Removed(t, z)) && Items(Removed(t, z)) <= Items(t) - {z}
      && Items(Removed(t, z)) == (Items(t) - Items(x)) + (Items(SubtreeAt(t, z)) - {z})
      && (x.item == z ==> Items(Removed(t, z)) == Items(t) - {z})
      && (x.item != z ==> x.item !in Items(Removed(t, z)))
  {
    var s := SubtreeAt(t, z);
    var (p, x) := KeyDescent(Here, t, s.key);
    KeyDescentReaches(Here, t, z);
    KeyDescentPlugs(Here, t, s.key);
    PlugItems(p, x);
    if x.item != z {
      assert s == if z in Items(x.left) then SubtreeAt(x.left, z) else SubtreeAt(x.right, z);
    }
    SplicedItems(p, s);
    var (q, sub) := Spliced(p, s);
    PlugItems(q, sub);
    RebalanceItems(q, sub);
  }

  /** When the key leads to `z`, removal drops exactly `z` and the tree stays balanced, heights included. */
  lemma RemovedExactly<T>(t: Tree<T>, z: T)
    requires Balanced(t) && Sorted(InOrder(t)) && Distinct(t) && z in Items(t)
    requires var x := Found(t, SubtreeAt(t, z).key); x.Bin? && x.item == z
    ensures InOrder(Removed(t, z)) == Without(InOrder(t), z)
    ensures Sorted(InOrder(Removed(t, z))) && Balanced(Removed(t, z))
  {
    var s := SubtreeAt(t, z);
    var (p, x) := KeyDescent(Here, t, s.key);
    KeyDescentReaches(Here, t, z);
    KeyDescentPlugs(Here, t, s.key);
    PlugItems(p, s);
    WithoutTop(p, s);
    var (q, sub) := Spliced(p, s);
    SplicedInOrder(p, s);
    RebalanceKeepsInOrder(q, sub);
    PlugBalanced(p, s);
    SplicedBalanced(p, s);
    RebalanceBalances(q, sub, H(sub) + 1);
    WithoutSorted(InOrder(t), z);
  }

  /**
   jk_avl_remove removes exactly the node it is given if and only if the key search finds
   that very node; otherwise the node that the search does find is lost.
   */
  lemma RemovedExactIff<T>(t: Tree<T>, z: T)
    requires Balanced(t) && Sorted(InOrder(t)) && Distinct(t) && z in Items(t)
    ensures var x := Found(t, SubtreeAt(t, z).key);
      && x.Bin?
      && (InOrder(Removed(t, z)) == Without(InOrder(t), z) <==> x.item == z)
  {
    RemovedItems(t, z);
    var x := Found(t, SubtreeAt(t, z).key);
    if x.item == z {
      RemovedExactly(t, z);
    } else {
      KeyDescentPlugs(Here, t, SubtreeAt(t, z).key);
      PlugItems(KeyDescent(Here, t, SubtreeAt(t, z).key).0, x);
      ItemsInOrder(t, x.item);
      var i :| 0 <= i < |InOrder(t)| && InOrder(t)[i].item == x.item;
      var j := WithoutKeeps(InOrder(t), z, i);
      ItemsInOrder(Removed(t, z), x.item);
    }
  }

  /** Two nodes with one key, and a third that is not smaller: removing the first empties the tree. */
  lemma TwoEqualKeys<T>(a: T, b: T, c: T, k: nat, m: nat)
    requires a != b && b != c && a != c && k <= m
    ensures var t := Inserted(Inserted(Inserted(Leaf, a, k), b, k), c, m);
      && t == Bin(Single(a, k), b, k, 2, Single(c, m))
      && InOrder(t) == [Elem(a, k), Elem(b, k), Elem(c, m)]
      && a in Items(t) && SubtreeAt(t, a).key == k && Found(t, k) == t && Removed(t, a) == Leaf
  {
    ThreeInserted(a, b, c, k, m);
    SingleInOrder(a, k);
    SingleInOrder(c, m);
    var t := Bin(Single(a, k), b, k, 2, Single(c, m));
    assert SubtreeAt(t, a) == Single(a, k);
    assert KeyDescent(Here, t, k) == (Here, t);
  }

  lemma ThreeInserted<T>(a: T, b: T, c: T, k: nat, m: nat)
    requires k <= m
    ensures Inserted(Inserted(Inserted(Leaf, a, k), b, k), c, m) == Bin(Single(a, k), b, k, 2, Single(c, m))
  {
    var t1: Tree<T> := Inserted(Leaf, a, k);
    assert t1 == Single(a, k);
    var p1: Path<T> := Down(Here, a, k, 1, false, Leaf);
    assert LeafDescent(Here, t1, k) == p1;
    var j1 := Join(p1, Single(b, k));
    assert !Settled(j1) && Repair(j1) == Bin(Leaf, a, k, 2, Single(b, k));
    var t2 := Inserted(t1, b, k);
    assert t2 == RebalanceUp(Here, Repair(j1)) == Repair(j1);
    ThirdInserted(a, b, c, k, m);
  }

  lemma ThirdInserted<T>(a: T, b: T, c: T, k: nat, m: nat)
    requires k <= m
    ensures Inserted(Bin(Leaf, a, k, 2, Single(b, k)), c, m) == Bin(Single(a, k), b, k, 2, Single(c, m))
  {
    var t2 := Bin(Leaf, a, k, 2, Single(b, k));
    var p2: Path<T> := Down(Down(Here, a, k, 2, false, Leaf), b, k, 1, false, Leaf);
    assert LeafDescent(p2.up, t2.right, m) == LeafDescent(p2, Leaf, m) == p2;
    assert LeafDescent(Here, t2, m) == p2;
    var j2 := Join(p2, Single(c, m));
    assert !Settled(j2) && Repair(j2) == Bin(Leaf, b, k, 2, Single(c, m));
    var j3 := Join(p2.up, Repair(j2));
    assert !Settled(j3) && Repair(j3) == Bin(Single(a, k), b, k, 2, Single(c, m));
    assert RebalanceUp(p2, Single(c, m)) == RebalanceUp(p2.up, Repair(j2));
    assert RebalanceUp(p2.up, Repair(j2)) == RebalanceUp(Here, Repair(j3)) == Repair(j3);
  }

  /** A key that occurs once is found at its one node. */
  lemma UniqueKeyFound<T>(t: Tree<T>, i: nat)
    requires Sorted(InOrder(t)) && Distinct(t) && i < |InOrder(t)|
    requires forall j :: 0 <= j < |InOrder(t)| && j != i ==> InOrder(t)[j].key != InOrder(t)[i].key
    ensures var x := Found(t, InOrder(t)[i].key); x.Bin? && x.item == InOrder(t)[i].item
  {
    var s, k := InOrder(t), InOrder(t)[i].key;
    var (p, x) := KeyDescent(Here, t, k);
    assert s[i].key == k;
    FoundNone(Here, t, k);
    KeyDescentPlugs(Here, t, k);
    PlugInOrder(p, x);
    var j := |Before(p)| + |InOrder(x.left)|;
    assert s[j] == Elem(x.item, x.key);
  }

  /** Removing undoes inserting. */
  lemma {:induction false} WithoutInserted<T>(s: seq<Elem<T>>, e: Elem<T>)
    requires Sorted(s) && forall i :: 0 <= i < |s| ==> s[i].item != e.item
    ensures Without(InsertSorted(s, e), e.item) == s
  {
    SplitJoins(s, e.key);
    var a, b := UpTo(s, e.key), Past(s, e.key);
    assert InsertSorted(s, e) == a + ([e] + b);
    assert forall i :: 0 <= i < |a| ==> a[i] == s[i];
    assert forall i :: 0 <= i < |b| ==> b[i] == s[|a| + i];
    WithoutMiddle(a, e, b);
  }
}
