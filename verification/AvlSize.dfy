/**
 How large the trees of jk_avl.c get before a descent overruns the 41 places of their stack, and which trees
 insertion builds.
 */
module AvlSize {
  import opened AvlShape

  // The size of the smallest tree that is too high for the stack.
  const TOO_MANY := 701408732

  ghost function Size<T>(t: Tree<T>): nat {
    |InOrder(t)|
  }

  ghost function Fib(n: nat): nat {
    if n < 2 then n else Fib(n - 2) + Fib(n - 1)
  }

  lemma {:induction false} FibMonotone(m: nat, n: nat)
    requires m <= n
    ensures Fib(m) <= Fib(n)
    decreases n
  {
    if n <= m {
    } else {
      FibMonotone(m, n - 1);
    }
  }

  lemma {:induction false} BalancedIsLarge<T>(t: Tree<T>)
    requires Balanced(t)
    ensures Size(t) + 1 >= Fib(H(t) + 2)
  {
    if t.Leaf? {
    } else {
      BalancedIsLarge(t.left);
      BalancedIsLarge(t.right);
      if H(t.left) < H(t.right) {
        assert H(t.left) + 1 == H(t.right);
      } else {
        FibMonotone(H(t.left) + 1, H(t.right) + 2);
      }
      assert Size(t) == Size(t.left) + 1 + Size(t.right);
    }
  }

  /** The sparsest balanced tree of each height, its nodes numbered in order from `from` on. */
  ghost function Sparsest(h: nat, from: nat): Tree<nat> {
    if h == 0 then Leaf
    else if h == 1 then Single(from, from)
    else
      var l := Sparsest(h - 1, from);
      var k := from + Size(l);
      Bin(l, k, k, h, Sparsest(h - 2, k + 1))
  }

  lemma {:induction false} SparsestBalanced(h: nat, from: nat)
    ensures Balanced(Sparsest(h, from)) && H(Sparsest(h, from)) == h
  {
    if h <= 1 {
    } else {
      SparsestBalanced(h - 1, from);
      SparsestBalanced(h - 2, from + Size(Sparsest(h - 1, from)) + 1);
    }
  }

  lemma BinSize(l: Tree<nat>, k: nat, h: nat, r: Tree<nat>)
    ensures Size(Bin(l, k, k, h, r)) == Size(l) + 1 + Size(r)
  {
  }

  lemma {:induction false} SparsestSize(h: nat, from: nat)
    ensures Size(Sparsest(h, from)) + 1 == Fib(h + 2)
  {
    if h == 0 {
      assert Fib(2) == Fib(0) + Fib(1);
    } else if h == 1 {
      assert Fib(3) == Fib(1) + Fib(2);
      SingleInOrder(from, from);
    } else {
      var l := Sparsest(h - 1, from);
      var k := from + Size(l);
      SparsestSize(h - 1, from);
      SparsestSize(h - 2, k + 1);
      BinSize(l, k, h, Sparsest(h - 2, k + 1));
    }
  }

  /** The sequence of the numbers from `from` on. */
  ghost predicate Numbered(s: seq<Elem<nat>>, from: nat) {
    forall i :: 0 <= i < |s| ==> s[i] == Elem(from + i, from + i)
  }

  lemma {:induction false} SparsestNumbered(h: nat, from: nat)
    ensures Numbered(InOrder(Sparsest(h, from)), from)
  {
    if h == 0 {
      assert InOrder(Sparsest(h, from)) == [];
    } else if h == 1 {
      SingleInOrder(from, from);
    } else {
      var l := Sparsest(h - 1, from);
      var k := from + Size(l);
      SparsestNumbered(h - 1, from);
      SparsestNumbered(h - 2, k + 1);
      NumberedJoin(InOrder(l), InOrder(Sparsest(h - 2, k + 1)), from);
    }
  }

  lemma {:induction false} SparsestDistinct(h: nat, from: nat)
    ensures Distinct(Sparsest(h, from))
    ensures forall x :: x in Items(Sparsest(h, from)) ==> from <= x < from + Size(Sparsest(h, from))
  {
    if h == 0 {
      assert Items(Sparsest(h, from)) == {};
    } else if h == 1 {
      SingleInOrder(from, from);
      assert Items(Single(from, from)) == {from};
    } else {
      var l := Sparsest(h - 1, from);
      var k := from + Size(l);
      var r := Sparsest(h - 2, k + 1);
      SparsestDistinct(h - 1, from);
      SparsestDistinct(h - 2, k + 1);
      BinSize(l, k, h, r);
    }
  }

  lemma NumberedJoin(a: seq<Elem<nat>>, b: seq<Elem<nat>>, from: nat)
    requires Numbered(a, from) && Numbered(b, from + |a| + 1)
    ensures Numbered(a + [Elem(from + |a|, from + |a|)] + b, from)
  {
  }

  /** The way down to a key before all others goes through `h` nodes. */
  lemma {:induction false} SparsestDescent(p: Path<nat>, h: nat, from: nat, k: nat)
    requires k < from
    ensures Len(LeafDescent(p, Sparsest(h, from), k)) == Len(p) + h
    decreases h
  {
    if h == 1 {
      var t := Single(from, from);
      assert LeafDescent(Down(p, t.item, t.key, t.h, true, t.right), t.left, k).up == p;
    } else if h > 1 {
      var t := Sparsest(h, from);
      SparsestDescent(Down(p, t.item, t.key, t.h, true, t.right), h - 1, from, k);
    }
  }

  lemma {:induction false} LargeFib(n: nat)
    requires n >= 44
    ensures Fib(n) > TOO_MANY && (n == 44 ==> Fib(n) == TOO_MANY + 1)
  {
    if n == 44 {
      FibUpTo43();
    } else {
      LargeFib(n - 1);
    }
  }

  lemma FibUpTo43()
    ensures Fib(42) == 267914296 && Fib(43) == 433494437
  {
    assert Fib(8) == 21 && Fib(9) == 34;
    assert Fib(16) == 987 && Fib(17) == 1597 by {
      assert Fib(10) == 55; assert Fib(11) == 89; assert Fib(12) == 144;
      assert Fib(13) == 233; assert Fib(14) == 377; assert Fib(15) == 610;
    }
    assert Fib(18) == 2584; assert Fib(19) == 4181; assert Fib(20) == 6765; assert Fib(21) == 10946;
    assert Fib(22) == 17711; assert Fib(23) == 28657; assert Fib(24) == 46368; assert Fib(25) == 75025;
    assert Fib(26) == 121393; assert Fib(27) == 196418; assert Fib(28) == 317811; assert Fib(29) == 514229;
    assert Fib(30) == 832040; assert Fib(31) == 1346269; assert Fib(32) == 2178309; assert Fib(33) == 3524578;
    assert Fib(34) == 5702887; assert Fib(35) == 9227465; assert Fib(36) == 14930352; assert Fib(37) == 24157817;
    assert Fib(38) == 39088169; assert Fib(39) == 63245986; assert Fib(40) == 102334155; assert Fib(41) == 165580141;
    assert Fib(42) == 267914296; assert Fib(43) == 433494437;
  }

  /** A balanced tree with fewer than TOO_MANY nodes has height at most 41. */
  lemma StackSuffices<T>(t: Tree<T>)
    requires Balanced(t) && Size(t) < TOO_MANY
    ensures H(t) <= JK_AVL_MAX_HEIGHT
  {
    BalancedIsLarge(t);
    if H(t) > JK_AVL_MAX_HEIGHT {
      LargeFib(H(t) + 2);
    }
  }

  // ---------- What insertion builds ----------

  /** The tree after the insertion of these nodes, one after the other. */
  ghost function BuiltBy<T>(es: seq<Elem<T>>): Tree<T> {
    if es == [] then Leaf else Inserted(BuiltBy(es[..|es| - 1]), es[|es| - 1].item, es[|es| - 1].key)
  }

  ghost predicate DistinctItems<T>(s: seq<Elem<T>>) {
    forall i, j :: 0 <= i < j < |s| ==> s[i].item != s[j].item
  }

  /** Ascending keys, no two the same. */
  ghost predicate Strict<T>(s: seq<Elem<T>>) {
    forall i, j :: 0 <= i < j < |s| ==> s[i].key < s[j].key
  }

  /** The tree without one of its lowest leaves, and that leaf. */
  ghost function Cropped<T>(t: Tree<T>): (Tree<T>, Elem<T>)
    requires Balanced(t) && t.Bin?
  {
    if t.left.Leaf? && t.right.Leaf? then (Leaf, Elem(t.item, t.key))
    else if H(t.left) >= H(t.right) then
      assert Balanced(t.right);
      var (l, e) := Cropped(t.left);
      (Bin(l, t.item, t.key, 1 + Max(H(l), H(t.right)), t.right), e)
    else
      var (r, e) := Cropped(t.right);
      (Bin(t.left, t.item, t.key, 1 + Max(H(t.left), H(r)), r), e)
  }

  lemma {:induction false} CroppedBalanced<T>(t: Tree<T>)
    requires Balanced(t) && t.Bin?
    ensures Balanced(Cropped(t).0) && H(Cropped(t).0) <= H(t) <= H(Cropped(t).0) + 1
  {
    if t.left.Leaf? && t.right.Leaf? {
    } else if H(t.left) >= H(t.right) {
      CroppedBalanced(t.left);
    } else {
      CroppedBalanced(t.right);
    }
  }

  /** The leaf's place in the sequence. */
  lemma {:induction false} CroppedInOrder<T>(t: Tree<T>) returns (a: seq<Elem<T>>, b: seq<Elem<T>>)
    requires Balanced(t) && t.Bin?
    ensures InOrder(t) == a + [Cropped(t).1] + b && InOrder(Cropped(t).0) == a + b
  {
    var e := [Elem(t.item, t.key)];
    if t.left.Leaf? && t.right.Leaf? {
      a, b := [], [];
      SingleInOrder(t.item, t.key);
    } else if H(t.left) >= H(t.right) {
      a, b := CroppedInOrder(t.left);
      var x, r := [Cropped(t).1], InOrder(t.right);
      assert (a + x + b) + e + r == a + x + (b + e + r) && (a + b) + e + r == a + (b + e + r);
      b := b + e + r;
    } else {
      a, b := CroppedInOrder(t.right);
      var x, l := [Cropped(t).1], InOrder(t.left);
      assert l + e + (a + x + b) == (l + e + a) + x + b && l + e + (a + b) == (l + e + a) + b;
      a := l + e + a;
    }
  }

  lemma StrictPieces<T>(a: seq<Elem<T>>, e: Elem<T>, b: seq<Elem<T>>)
    requires Strict(a + [e] + b)
    ensures Strict(a) && Strict(b) && Strict(a + b)
    ensures forall i :: 0 <= i < |a| ==> a[i].key < e.key
    ensures forall i :: 0 <= i < |b| ==> b[i].key > e.key
  {
    var s, n := a + [e] + b, |a|;
    assert s[n] == e;
    assert forall i :: 0 <= i < n ==> a[i] == s[i];
    assert forall i :: 0 <= i < |b| ==> b[i] == s[n + 1 + i];
    StrictWithout(a, e, b);
  }

  lemma StrictWithout<T>(a: seq<Elem<T>>, e: Elem<T>, b: seq<Elem<T>>)
    requires Strict(a + [e] + b)
    ensures Strict(a + b)
  {
    var s, r, n := a + [e] + b, a + b, |a|;
    forall i, j | 0 <= i < j < |r|
      ensures r[i].key < r[j].key
    {
      var i', j' := if i < n then i else i + 1, if j < n then j else j + 1;
      assert r[i] == s[i'] && r[j] == s[j'];
    }
  }

  /** One node up from a subtree that has its final shape, in a node whose height may have to change. */
  lemma OneUp<T>(p: Path<T>, t: Tree<T>, sub: Tree<T>, settled: bool)
    requires p.Down? && t.Bin? && Balanced(t) && Join(p, sub) == t.(h := p.h) && (settled ==> p.h == t.h)
    ensures (if settled then Plug(p, sub) else RebalanceUp(p, sub)) ==
            if p.h == t.h then Plug(p.up, t) else RebalanceUp(p.up, t)
  {
    var j := Join(p, sub);
    if p.h == t.h {
      assert j == t && Settled(j);
    } else {
      assert !Settled(j) && Repair(j) == t;
    }
  }

  /** Putting the leaf back gives the tree again, whatever it hangs under: on its way up the loop sets heights and
      rotates nothing, and it goes on above the tree only if the tree's height has changed. */
  lemma {:induction false} PutBack<T>(p: Path<T>, t: Tree<T>)
    requires Balanced(t) && t.Bin? && Strict(InOrder(t))
    ensures var (t', e) := Cropped(t);
      RebalanceUp(LeafDescent(p, t', e.key), Single(e.item, e.key)) ==
        if H(t') == H(t) then Plug(p, t) else RebalanceUp(p, t)
    decreases t
  {
    var (t', e) := Cropped(t);
    StrictPieces(InOrder(t.left), Elem(t.item, t.key), InOrder(t.right));
    CroppedBalanced(t);
    if t.left.Leaf? && t.right.Leaf? {
    } else if H(t.left) >= H(t.right) {
      var a, b := CroppedInOrder(t.left);
      assert InOrder(t.left)[|a|] == e;
      var q := Down(p, t.item, t.key, t'.h, true, t.right);
      PutBack(q, t.left);
      OneUp(q, t, t.left, H(t'.left) == H(t.left));
    } else {
      var a, b := CroppedInOrder(t.right);
      assert InOrder(t.right)[|a|] == e;
      var q := Down(p, t.item, t.key, t'.h, false, t.left);
      PutBack(q, t.right);
      OneUp(q, t, t.right, H(t'.right) == H(t.right));
    }
  }

  lemma {:induction false} CroppedItems<T>(t: Tree<T>)
    requires Balanced(t) && t.Bin? && Distinct(t)
    ensures var (t', e) := Cropped(t);
      Distinct(t') && e.item in Items(t) && Items(t') == Items(t) - {e.item}
  {
    if t.left.Leaf? && t.right.Leaf? {
    } else if H(t.left) >= H(t.right) {
      CroppedItems(t.left);
    } else {
      CroppedItems(t.right);
    }
  }

  /** The smaller tree of the induction. */
  lemma OneLess<T>(t: Tree<T>) returns (t': Tree<T>, e: Elem<T>)
    requires Balanced(t) && t.Bin? && Strict(InOrder(t)) && Distinct(t)
    ensures Balanced(t') && Strict(InOrder(t')) && Distinct(t')
    ensures Inserted(t', e.item, e.key) == t && Items(t) == Items(t') + {e.item} && e.item !in Items(t')
    ensures Size(t) == Size(t') + 1 && multiset(InOrder(t)) == multiset(InOrder(t')) + multiset{e}
  {
    t', e := Cropped(t).0, Cropped(t).1;
    CroppedBalanced(t);
    PutBack(Here, t);
    CroppedItems(t);
    var a, b := CroppedInOrder(t);
    StrictPieces(a, e, b);
  }

  /** One more insertion, of a node that is not among `xs`. */
  lemma OneMore<T>(es: seq<Elem<T>>, e: Elem<T>, xs: set<T>) returns (r: seq<Elem<T>>)
    requires DistinctItems(es) && e.item !in xs && forall i :: 0 <= i < |es| ==> es[i].item in xs
    ensures BuiltBy(r) == Inserted(BuiltBy(es), e.item, e.key)
    ensures multiset(r) == multiset(es) + multiset{e} && |r| == |es| + 1
    ensures DistinctItems(r) && forall i :: 0 <= i < |r| ==> r[i].item in xs + {e.item}
  {
    r := es + [e];
    assert r[..|r| - 1] == es;
  }

  /** Every balanced tree with ascending keys is built by inserting its nodes in a suitable order. */
  lemma {:induction false} EveryTreeIsBuilt<T>(t: Tree<T>) returns (es: seq<Elem<T>>)
    requires Balanced(t) && Strict(InOrder(t)) && Distinct(t)
    ensures BuiltBy(es) == t && multiset(es) == multiset(InOrder(t)) && |es| == Size(t)
    ensures DistinctItems(es) && forall i :: 0 <= i < |es| ==> es[i].item in Items(t)
    decreases Size(t)
  {
    if t.Leaf? {
      es := [];
    } else {
      var t', e := OneLess(t);
      es := EveryTreeIsBuilt(t');
      es := OneMore(es, e, Items(t'));
    }
  }

  lemma InsertSortedBag<T>(s: seq<Elem<T>>, e: Elem<T>)
    requires Sorted(s)
    ensures multiset(InsertSorted(s, e)) == multiset(s) + multiset{e} && |InsertSorted(s, e)| == |s| + 1
  {
    SplitJoins(s, e.key);
  }

  lemma SameMembers<E>(s: seq<E>, r: seq<E>)
    requires multiset(s) == multiset(r)
    ensures forall e :: e in s <==> e in r
  {
    assert forall e :: e in s <==> e in multiset(s);
    assert forall e :: e in r <==> e in multiset(r);
  }

  lemma ItemsMatch<T>(t: Tree<T>, es: seq<Elem<T>>, x: T)
    requires multiset(InOrder(t)) == multiset(es)
    ensures x in Items(t) <==> exists i :: 0 <= i < |es| && es[i].item == x
  {
    var s := InOrder(t);
    ItemsInOrder(t, x);
    SameMembers(s, es);
    if i :| 0 <= i < |s| && s[i].item == x {
      assert s[i] in es;
    }
    if i :| 0 <= i < |es| && es[i].item == x {
      assert es[i] in s;
    }
  }

  lemma LastOne<T>(es: seq<Elem<T>>) returns (es': seq<Elem<T>>, e: Elem<T>)
    requires DistinctItems(es) && es != []
    ensures DistinctItems(es') && |es| == |es'| + 1 && multiset(es) == multiset(es') + multiset{e}
    ensures BuiltBy(es) == Inserted(BuiltBy(es'), e.item, e.key)
    ensures forall i :: 0 <= i < |es'| ==> es'[i].item != e.item
  {
    es', e := es[..|es| - 1], es[|es| - 1];
    assert es == es' + [e];
  }

  lemma StillBalanced<T>(t: Tree<T>, e: Elem<T>) returns (r: Tree<T>)
    requires Balanced(t) && Sorted(InOrder(t)) && Distinct(t) && e.item !in Items(t)
    ensures r == Inserted(t, e.item, e.key) && Balanced(r) && Sorted(InOrder(r)) && Distinct(r)
    ensures multiset(InOrder(r)) == multiset(InOrder(t)) + multiset{e} && Size(r) == Size(t) + 1
  {
    r := Inserted(t, e.item, e.key);
    InsertedCorrect(t, e.item, e.key);
    InsertSortedBag(InOrder(t), e);
  }

  /** And whatever insertion builds of different nodes is a balanced tree of these nodes in order. */
  lemma {:induction false} BuiltIsBalanced<T>(es: seq<Elem<T>>)
    requires DistinctItems(es)
    ensures var t := BuiltBy(es);
      && Balanced(t) && Sorted(InOrder(t)) && Distinct(t)
      && multiset(InOrder(t)) == multiset(es) && Size(t) == |es|
    decreases |es|
  {
    if es == [] {
    } else {
      var es', e := LastOne(es);
      BuiltIsBalanced(es');
      ItemsMatch(BuiltBy(es'), es', e.item);
      var t := StillBalanced(BuiltBy(es'), e);
    }
  }

  /** So insertion builds exactly the balanced trees. */
  lemma BuiltIff<T>(t: Tree<T>)
    requires Strict(InOrder(t)) && Distinct(t)
    ensures (exists es :: DistinctItems(es) && BuiltBy(es) == t) <==> Balanced(t)
  {
    if Balanced(t) {
      var es := EveryTreeIsBuilt(t);
      assert BuiltBy(es) == t;
    } else if es :| DistinctItems(es) && BuiltBy(es) == t {
      BuiltIsBalanced(es);
    }
  }

  // ---------- The bound is tight ----------

  /** Insertions of that many different nodes, none of which overruns the stack, can build a tree in which the next one
      does: its descent records 42 places. */
  lemma StackBoundIsTight() returns (es: seq<Elem<nat>>, k: nat)
    ensures DistinctItems(es) && |es| == TOO_MANY
    ensures forall i :: 0 <= i < |es| ==> H(BuiltBy(es[..i])) <= JK_AVL_MAX_HEIGHT
    ensures Len(LeafDescent(Here, BuiltBy(es), k)) == JK_AVL_MAX_HEIGHT + 1
  {
    var h := JK_AVL_MAX_HEIGHT + 1;
    es, k := SparsestIsBuilt(h);
    LargeFib(h + 2);
    BuiltWithin(es);
  }

  lemma SparsestIsBuilt(h: nat) returns (es: seq<Elem<nat>>, k: nat)
    ensures DistinctItems(es) && |es| + 1 == Fib(h + 2)
    ensures Len(LeafDescent(Here, BuiltBy(es), k)) == h
  {
    var t;
    t, k := SparsestTree(h);
    es := EveryTreeIsBuilt(t);
  }

  lemma SparsestTree(h: nat) returns (t: Tree<nat>, k: nat)
    ensures Balanced(t) && Strict(InOrder(t)) && Distinct(t) && Size(t) + 1 == Fib(h + 2)
    ensures Len(LeafDescent(Here, t, k)) == h
  {
    t, k := Sparsest(h, 1), 0;
    SparsestBalanced(h, 1);
    SparsestSize(h, 1);
    SparsestStrict(h);
    SparsestDistinct(h, 1);
    SparsestDescent(Here, h, 1, 0);
  }

  lemma SparsestStrict(h: nat)
    ensures Strict(InOrder(Sparsest(h, 1)))
  {
    SparsestNumbered(h, 1);
  }

  lemma BuiltWithin<T>(es: seq<Elem<T>>)
    requires DistinctItems(es) && |es| <= TOO_MANY
    ensures forall i :: 0 <= i < |es| ==> H(BuiltBy(es[..i])) <= JK_AVL_MAX_HEIGHT
  {
    forall i | 0 <= i < |es|
      ensures H(BuiltBy(es[..i])) <= JK_AVL_MAX_HEIGHT
    {
      BuiltIsBalanced(es[..i]);
      StackSuffices(BuiltBy(es[..i]));
    }
  }
}
