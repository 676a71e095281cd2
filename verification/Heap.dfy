/**
 jk_heap.c: a binary heap in an array that grows and shrinks. HeapOrder is the order on
 sequences that the sift loops restore; Heap is the code.
 */
module HeapOrder {
  /** comp orders everything, and the sign turns with its arguments. */
  ghost predicate TotalPreorder<T(!new)>(comp: (T, T) -> int) {
    && (forall a, b :: comp(a, b) > 0 <==> comp(b, a) < 0)
    && (forall a, b, c :: Chained(comp, a, b, c))
  }

  ghost predicate Chained<T>(comp: (T, T) -> int, a: T, b: T, c: T) {
    comp(a, b) >= 0 && comp(b, c) >= 0 ==> comp(a, c) >= 0
  }

  function Parent(pos: nat): nat {
    if pos == 0 then 0 else (pos - 1) / 2
  }

  /** The parent of `k` is not less than `k`. */
  ghost predicate Above<T>(comp: (T, T) -> int, s: seq<T>, k: nat)
    requires 1 <= k < |s|
  {
    comp(s[Parent(k)], s[k]) >= 0
  }

  ghost predicate IsHeap<T>(comp: (T, T) -> int, s: seq<T>) {
    forall k :: 1 <= k < |s| ==> Above(comp, s, k)
  }

  /** A heap, but for position `i` against its parent; its children are below that parent. */
  ghost predicate HeapButUp<T>(comp: (T, T) -> int, s: seq<T>, i: nat)
    requires i < |s|
  {
    && (forall k :: 1 <= k < |s| && k != i ==> Above(comp, s, k))
    && (forall k :: 1 <= k < |s| && i > 0 && Parent(k) == i ==> comp(s[Parent(i)], s[k]) >= 0)
  }

  /** A heap, but for position `i` against its children; they are below its parent. */
  ghost predicate HeapButDown<T>(comp: (T, T) -> int, s: seq<T>, i: nat)
    requires i < |s|
  {
    && (forall k :: 1 <= k < |s| && Parent(k) != i ==> Above(comp, s, k))
    && (forall k :: 1 <= k < |s| && i > 0 && Parent(k) == i ==> comp(s[Parent(i)], s[k]) >= 0)
  }

  function Swapped<T>(s: seq<T>, i: nat, j: nat): seq<T>
    requires i < |s| && j < |s|
  {
    s[i := s[j]][j := s[i]]
  }

  lemma SwappedBag<T>(s: seq<T>, i: nat, j: nat)
    requires i < |s| && j < |s|
    ensures multiset(Swapped(s, i, j)) == multiset(s)
  {
  }

  lemma SwapUp<T(!new)>(comp: (T, T) -> int, s: seq<T>, i: nat)
    requires TotalPreorder(comp) && 0 < i < |s| && HeapButUp(comp, s, i)
    requires comp(s[Parent(i)], s[i]) < 0
    ensures HeapButUp(comp, Swapped(s, i, Parent(i)), Parent(i))
  {
    var p := Parent(i);
    var r := Swapped(s, i, p);
    forall k | 1 <= k < |s| && k != p
      ensures Above(comp, r, k)
    {
      if k == i {
      } else if Parent(k) == p {
        assert Above(comp, s, k);
        assert r[p] == s[i] && r[k] == s[k];
        assert comp(s[i], s[p]) >= 0 && Chained(comp, s[i], s[p], s[k]);
      } else if Parent(k) == i {
        assert comp(s[p], s[k]) >= 0;
      } else {
        assert Above(comp, s, k);
      }
    }
    forall k | 1 <= k < |s| && p > 0 && Parent(k) == p
      ensures comp(r[Parent(p)], r[k]) >= 0
    {
      assert Above(comp, s, p);
      if k != i {
        assert Above(comp, s, k) && Chained(comp, s[Parent(p)], s[p], s[k]);
      }
    }
  }

  lemma SettledUp<T(!new)>(comp: (T, T) -> int, s: seq<T>, i: nat)
    requires i < |s| && HeapButUp(comp, s, i) && (i == 0 || Above(comp, s, i))
    ensures IsHeap(comp, s)
  {
  }

  /** The larger child, or `i` itself when no child is greater, as the two comparisons choose it. */
  function Largest<T>(comp: (T, T) -> int, s: seq<T>, i: nat): (m: nat)
    requires i < |s|
    ensures m < |s| && (m == i || (m > 0 && Parent(m) == i))
  {
    var l := if 2 * i + 1 < |s| && comp(s[2 * i + 1], s[i]) > 0 then 2 * i + 1 else i;
    if 2 * i + 2 < |s| && comp(s[2 * i + 2], s[l]) > 0 then 2 * i + 2 else l
  }

  lemma Children(k: nat, i: nat)
    requires k > 0 && Parent(k) == i
    ensures k == 2 * i + 1 || k == 2 * i + 2
  {
  }

  lemma LargestIsAbove<T(!new)>(comp: (T, T) -> int, s: seq<T>, i: nat, k: nat)
    requires TotalPreorder(comp) && i < |s| && 0 < k < |s| && Parent(k) == i
    ensures comp(s[Largest(comp, s, i)], s[k]) >= 0
  {
    Children(k, i);
    assert Chained(comp, s[Largest(comp, s, i)], s[i], s[k]);
  }

  lemma LargestIsNotLess<T(!new)>(comp: (T, T) -> int, s: seq<T>, i: nat)
    requires TotalPreorder(comp) && i < |s|
    ensures comp(s[Largest(comp, s, i)], s[i]) >= 0
  {
    if 2 * i + 1 < |s| {
      assert Chained(comp, s[Largest(comp, s, i)], s[2 * i + 1], s[i]);
    }
  }

  lemma SwapDown<T(!new)>(comp: (T, T) -> int, s: seq<T>, i: nat)
    requires TotalPreorder(comp) && i < |s| && HeapButDown(comp, s, i)
    ensures var m := Largest(comp, s, i);
      if m == i then IsHeap(comp, s) else HeapButDown(comp, Swapped(s, m, i), m)
  {
    var m := Largest(comp, s, i);
    if m == i {
      forall k | 1 <= k < |s|
        ensures Above(comp, s, k)
      {
        if Parent(k) == i {
          LargestIsAbove(comp, s, i, k);
        }
      }
    } else {
      var r := Swapped(s, m, i);
      forall k | 1 <= k < |s| && Parent(k) != m
        ensures Above(comp, r, k)
      {
        if Parent(k) == i {
          LargestIsAbove(comp, s, i, k);
          LargestIsNotLess(comp, s, i);
        } else if k == i {
          assert comp(s[Parent(i)], s[m]) >= 0;
        } else {
          assert Above(comp, s, k);
        }
      }
      forall k | 1 <= k < |s| && Parent(k) == m
        ensures comp(r[Parent(m)], r[k]) >= 0
      {
        assert Above(comp, s, k);
      }
    }
  }

  /** The root of a heap is a maximum. */
  lemma {:induction false} RootIsMax<T(!new)>(comp: (T, T) -> int, s: seq<T>, k: nat)
    requires TotalPreorder(comp) && IsHeap(comp, s) && k < |s|
    ensures comp(s[0], s[k]) >= 0
  {
    if k == 0 {
    } else {
      RootIsMax(comp, s, Parent(k));
      assert Above(comp, s, k) && Chained(comp, s[0], s[Parent(k)], s[k]);
    }
  }

  // ---------- Whole runs ----------

  ghost predicate IsMax<T>(comp: (T, T) -> int, x: T, bag: multiset<T>) {
    forall y :: y in bag ==> comp(x, y) >= 0
  }

  /** `out` came from extracting from `before` again and again until `after` was left. */
  ghost predicate Extracts<T>(comp: (T, T) -> int, before: multiset<T>, out: seq<T>, after: multiset<T>)
    decreases out
  {
    if out == [] then before == after
    else
      && out[0] in before && IsMax(comp, out[0], before)
      && Extracts(comp, before - multiset{out[0]}, out[1..], after)
  }

  /** One more element taken. */
  lemma {:induction false} ExtractsMore<T>(comp: (T, T) -> int, before: multiset<T>, out: seq<T>,
                                           after: multiset<T>, x: T)
    requires Extracts(comp, before, out, after) && x in after && IsMax(comp, x, after)
    ensures Extracts(comp, before, out + [x], after - multiset{x})
    decreases out
  {
    var out' := out + [x];
    if out == [] {
      assert out'[1..] == [];
    } else {
      ExtractsMore(comp, before - multiset{out[0]}, out[1..], after, x);
      assert out'[1..] == out[1..] + [x];
    }
  }

  lemma ExtractsNext<T>(comp: (T, T) -> int, before: multiset<T>, out: seq<T>,
                        bag: multiset<T>, x: T, after: multiset<T>) returns (more: seq<T>)
    requires Extracts(comp, before, out, bag) && IsMax(comp, x, bag) && bag == after + multiset{x}
    ensures more == out + [x] && Extracts(comp, before, more, after)
  {
    more := out + [x];
    ExtractsMore(comp, before, out, bag, x);
    assert bag - multiset{x} == after;
  }

  /** Draining gives the contents in non-increasing order. */
  lemma {:induction false} DrainIsSorted<T>(comp: (T, T) -> int, before: multiset<T>, out: seq<T>, after: multiset<T>)
    requires Extracts(comp, before, out, after)
    ensures before == multiset(out) + after
    ensures forall i, j :: 0 <= i < j < |out| ==> comp(out[i], out[j]) >= 0
    decreases out
  {
    if out == [] {
    } else {
      DrainIsSorted(comp, before - multiset{out[0]}, out[1..], after);
      assert out == [out[0]] + out[1..];
      FirstIsGreatest(comp, before, out);
    }
  }

  lemma FirstIsGreatest<T>(comp: (T, T) -> int, before: multiset<T>, out: seq<T>)
    requires out != [] && IsMax(comp, out[0], before) && multiset(out[1..]) <= before
    ensures forall j :: 0 < j < |out| ==> comp(out[0], out[j]) >= 0
  {
    forall j | 0 < j < |out|
      ensures comp(out[0], out[j]) >= 0
    {
      assert out[j] == out[1..][j - 1];
      assert out[j] in multiset(out[1..]);
    }
  }
}

module Heap {
  import opened HeapOrder

  const JK_HEAP_INIT_SIZE := 10
  const JK_HEAP_INCR_SIZE := 10

  datatype Option<T> = None | Some(value: T)

  class Heap<T(0, !new)> {
    var tree: array<T>
    var size: nat
    var used: nat
    const comp: (T, T) -> int

    ghost predicate Valid()
      reads this, tree
    {
      && TotalPreorder(comp)
      && tree.Length == size && used <= size
      && IsHeap(comp, Contents())
    }

    ghost function Contents(): seq<T>
      reads this, tree
      requires used <= tree.Length
    {
      tree[..used]
    }

    /** The capacity stays within half as much again as is used, and twenty slots. */
    ghost predicate Tight()
      reads this
    {
      2 * size <= 3 * used + 20
    }

    constructor (comp: (T, T) -> int)
      requires TotalPreorder(comp)
      ensures Valid() && Contents() == [] && size == 10 && Tight() && fresh(tree)
    {
      tree := new T[JK_HEAP_INIT_SIZE];
      size, used := JK_HEAP_INIT_SIZE, 0;
      this.comp := comp;
    }

    /** realloc to `n` slots: what fits is kept. */
    method Realloc(n: nat)
      requires tree.Length == size
      modifies this`tree, this`size
      ensures fresh(tree) && tree.Length == size == n
      ensures forall k :: 0 <= k < n && k < old(size) ==> tree[k] == old(tree[k])
    {
      var temp := new T[n];
      forall k | 0 <= k < n && k < size {
        temp[k] := tree[k];
      }
      tree, size := temp, n;
    }

    method Swap(i: nat, j: nat, ghost s: seq<T>)
      requires |s| <= tree.Length && i < |s| && j < |s| && tree[..|s|] == s
      modifies tree
      ensures tree[..|s|] == Swapped(s, i, j)
    {
      tree[i], tree[j] := tree[j], tree[i];
    }

    /** The loop of jk_heap_insert, for the element put at `last`. */
    method SiftUp(last: nat) returns (ghost r: seq<T>)
      requires TotalPreorder(comp) && last < tree.Length && HeapButUp(comp, tree[..last + 1], last)
      modifies tree
      ensures r == tree[..last + 1] && IsHeap(comp, r)
      ensures multiset(r) == multiset(old(tree[..last + 1]))
    {
      var ipos: nat, ppos: nat := last, Parent(last);
      r := tree[..last + 1];
      ghost var bag := multiset(r);
      while ipos > 0 && comp(tree[ppos], tree[ipos]) < 0
        invariant ipos <= last && ppos == Parent(ipos)
        invariant |r| == last + 1 && tree[..last + 1] == r && HeapButUp(comp, r, ipos)
        invariant multiset(r) == bag
      {
        SwapUp(comp, r, ipos);
        SwappedBag(r, ipos, ppos);
        Swap(ipos, ppos, r);
        r := Swapped(r, ipos, ppos);
        ipos := ppos;
        ppos := Parent(ipos);
      }
      SettledUp(comp, r, ipos);
    }

    /** Room for one more element; false when the array could not grow. */
    method Reserve(reallocOk: bool) returns (ok: bool)
      requires Valid()
      modifies this`tree, this`size
      ensures Valid() && Contents() == old(Contents())
      ensures ok <==> old(used) < old(size) || reallocOk
      ensures ok ==> used < size
      ensures size == if ok && old(used) >= old(size) then old(size) + JK_HEAP_INCR_SIZE else old(size)
      ensures tree == old(tree) || fresh(tree)
    {
      ok := true;
      if used >= size {
        if !reallocOk {
          return false;
        }
        ghost var s := Contents();
        Realloc(size + JK_HEAP_INCR_SIZE);
        assert Contents() == s;
      }
    }

    /** jk_heap_insert; `reallocOk` is whether the array could grow if it had to. */
    method Insert(data: T, reallocOk: bool) returns (ret: int)
      requires Valid()
      modifies this`tree, this`size, this`used, tree
      ensures Valid()
      ensures ret == if old(used) >= old(size) && !reallocOk then -1 else 0
      ensures ret == -1 ==> Contents() == old(Contents()) && size == old(size)
      ensures ret == 0 ==> multiset(Contents()) == multiset(old(Contents())) + multiset{data}
      ensures tree == old(tree) || fresh(tree)
      ensures size == old(size) + if ret == 0 && old(used) == old(size) then 10 else 0
      ensures old(Tight()) ==> Tight()
    {
      var ok := Reserve(reallocOk);
      if !ok {
        return -1;
      }
      Append(data, Contents());
      return 0;
    }

    method Append(data: T, ghost s: seq<T>)
      requires Valid() && used < size && s == Contents()
      modifies this`used, tree
      ensures Valid() && used == old(used) + 1
      ensures multiset(Contents()) == multiset(s) + multiset{data}
    {
      tree[used] := data;
      assert tree[..used + 1] == s + [data];
      AppendedHeap(s, data);
      ghost var r := SiftUp(used);
      used := used + 1;
    }

    lemma AppendedHeap(s: seq<T>, data: T)
      requires IsHeap(comp, s)
      ensures HeapButUp(comp, s + [data], |s|)
    {
      forall k | 1 <= k < |s|
        ensures Above(comp, s + [data], k)
      {
        assert Above(comp, s, k);
      }
    }

    /** The loop of jk_heap_extract, for the element put at the root. */
    method SiftDown() returns (ghost r: seq<T>)
      requires TotalPreorder(comp) && 0 < used <= tree.Length && HeapButDown(comp, tree[..used], 0)
      modifies tree
      ensures r == tree[..used] && IsHeap(comp, r)
      ensures multiset(r) == multiset(old(tree[..used]))
    {
      var ipos: nat := 0;
      r := tree[..used];
      ghost var bag := multiset(r);
      while true
        invariant ipos < used == |r| && tree[..used] == r && HeapButDown(comp, r, ipos)
        invariant multiset(r) == bag
        decreases used - ipos
      {
        var mpos := LargestOf(ipos, r);
        SwapDown(comp, r, ipos);
        if mpos == ipos {
          break;
        }
        SwappedBag(r, mpos, ipos);
        Swap(mpos, ipos, r);
        r := Swapped(r, mpos, ipos);
        ipos := mpos;
      }
    }

    method LargestOf(ipos: nat, ghost r: seq<T>) returns (mpos: nat)
      requires ipos < used == |r| <= tree.Length && tree[..used] == r
      ensures mpos == Largest(comp, r, ipos)
    {
      var lpos, rpos := ipos * 2 + 1, ipos * 2 + 2;
      mpos := ipos;
      if lpos < used && comp(tree[lpos], tree[ipos]) > 0 {
        mpos := lpos;
      }
      if rpos < used && comp(tree[rpos], tree[mpos]) > 0 {
        mpos := rpos;
      }
    }

    /** The capacity that jk_heap_extract asks for. */
    function NewSize(used: nat, size: nat): nat {
      if used == 0 then JK_HEAP_INIT_SIZE
      else if 2 * size > 3 * used then 3 * used / 2
      else size
    }

    /** Gives back room, when that is possible; the used slots stay. */
    method Trim(reallocOk: bool)
      requires tree.Length == size && used <= size
      modifies this`tree, this`size
      ensures tree.Length == size && used <= size && Contents() == old(Contents())
      ensures size == if reallocOk then NewSize(used, old(size)) else old(size)
      ensures tree == old(tree) || fresh(tree)
    {
      var nsize := NewSize(used, size);
      if nsize != size && reallocOk {
        ghost var s := Contents();
        Realloc(nsize);
        assert Contents() == s;
      }
    }

    /** jk_heap_extract; `reallocOk` is whether the array could be resized if it had to. */
    method Extract(reallocOk: bool) returns (ret: int, data: Option<T>)
      requires Valid()
      modifies this`tree, this`size, this`used, tree
      ensures Valid()
      ensures if old(used) == 0 then ret == -1 && data.None? else ret == 0 && data.Some?
      ensures ret == -1 ==> Contents() == old(Contents()) && size == old(size)
      ensures ret == 0 ==> IsMax(comp, data.value, multiset(old(Contents())))
      ensures ret == 0 ==> multiset(old(Contents())) == multiset(Contents()) + multiset{data.value}
      ensures ret == 0 ==> used == old(used) - 1
      ensures tree == old(tree) || fresh(tree)
      ensures ret == 0 && reallocOk ==>
        if used == 0 then size == 10
        else if 2 * old(size) > 3 * used then 2 * size <= 3 * used < 2 * size + 2
        else size == old(size)
      ensures !reallocOk ==> size == old(size)
      ensures reallocOk && (ret == 0 || old(Tight())) ==> Tight()
    {
      if used == 0 {
        return -1, None;
      }
      ghost var s := Contents();
      data := Some(tree[0]);
      RootOfAll(s);
      used := used - 1;
      var save := tree[used];
      Trim(reallocOk);
      ret := 0;
      if used == 0 {
        assert s == [data.value];
        return;
      }
      RefillRoot(save, s);
    }

    method RefillRoot(save: T, ghost s: seq<T>)
      requires TotalPreorder(comp) && IsHeap(comp, s) && tree.Length == size && 0 < used <= size
      requires |s| == used + 1 && Contents() == s[..used] && save == s[used]
      modifies tree
      ensures Valid() && multiset(s) == multiset(Contents()) + multiset{s[0]}
    {
      tree[0] := save;
      LastToRoot(s, tree[..used]);
      ghost var r := SiftDown();
    }

    lemma RootOfAll(s: seq<T>)
      requires TotalPreorder(comp) && IsHeap(comp, s) && |s| > 0
      ensures IsMax(comp, s[0], multiset(s))
    {
      forall y | y in multiset(s)
        ensures comp(s[0], y) >= 0
      {
        var k :| 0 <= k < |s| && s[k] == y;
        RootIsMax(comp, s, k);
      }
    }

    /** The last element in the place of the first. */
    lemma LastToRoot(s: seq<T>, r: seq<T>)
      requires IsHeap(comp, s) && |s| >= 2 && r == [s[|s| - 1]] + s[1..|s| - 1]
      ensures HeapButDown(comp, r, 0)
      ensures multiset(s) == multiset(r) + multiset{s[0]}
    {
      assert s == [s[0]] + s[1..|s| - 1] + [s[|s| - 1]];
      forall k | 1 <= k < |r| && Parent(k) != 0
        ensures Above(comp, r, k)
      {
        assert Above(comp, s, k);
      }
    }
  }

  /** Extracting until the heap is empty sorts what it held, whatever becomes of the reallocations. */
  method Drain<T(0, !new)>(h: Heap<T>, reallocOk: nat -> bool) returns (out: seq<T>)
    requires h.Valid()
    modifies h, h.tree
    ensures h.Valid() && h.used == 0 && (h.tree == old(h.tree) || fresh(h.tree))
    ensures multiset(out) == multiset(old(h.Contents()))
    ensures forall i, j :: 0 <= i < j < |out| ==> h.comp(out[i], out[j]) >= 0
  {
    ghost var before := h.Contents();
    out := [];
    while h.used > 0
      invariant h.Valid() && (h.tree == old(h.tree) || fresh(h.tree))
      invariant Extracts(h.comp, multiset(before), out, multiset(h.Contents()))
      decreases h.used
    {
      out := ExtractTo(h, out, reallocOk(|out|), before);
    }
    assert h.Contents() == [];
    DrainIsSorted(h.comp, multiset(before), out, multiset{});
  }

  /** One extraction of a drain. */
  method ExtractTo<T(0, !new)>(h: Heap<T>, taken: seq<T>, reallocOk: bool, ghost before: seq<T>) returns (out: seq<T>)
    requires h.Valid() && h.used > 0 && Extracts(h.comp, multiset(before), taken, multiset(h.Contents()))
    modifies h, h.tree
    ensures h.Valid() && h.used == old(h.used) - 1 && (h.tree == old(h.tree) || fresh(h.tree))
    ensures Extracts(h.comp, multiset(before), out, multiset(h.Contents()))
  {
    ghost var bag := multiset(h.Contents());
    var ret, data := h.Extract(reallocOk);
    ghost var more := ExtractsNext(h.comp, multiset(before), taken, bag, data.value, multiset(h.Contents()));
    out := taken + [data.value];
  }
}
