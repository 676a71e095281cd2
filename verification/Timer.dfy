/**
 jk_timer.c on the heap: the timers in the AVL tree, and the loop over it, proved to make exactly the run of TimerQueue.
 */
module Timer {
  import opened AvlShape
  import opened Avl
  import opened AvlSize
  import opened TimerQueue
  import opened TimerTree

  const MAX_TIMERS := TOO_MANY

  // A jk_timer_t. Each pending jk_timer_node_t is identified with the AVL node it embeds.
  class Timer {
    const tree: AvlTree

    ghost predicate Valid()
      reads this, tree, Items(tree.shape)
    {
      tree.Valid()
    }

    ghost function Pending(): seq<Elem<Node>>
      reads this, tree
    {
      InOrder(tree.shape)
    }

    constructor ()
      ensures Valid() && Pending() == [] && fresh(tree)
    {
      tree := new AvlTree();
    }

    /** jk_timer_push; `mallocOk` says whether malloc gave a node. */
    method Push(timeout: nat, now: nat, data: object?, mallocOk: bool) returns (ret: int, ghost node: Node?)
      requires Valid() && |Pending()| < MAX_TIMERS
      modifies tree`root, tree`shape, Items(tree.shape)`left, Items(tree.shape)`right, Items(tree.shape)`height
      ensures Valid() && ret == (if mallocOk then 0 else -1)
      ensures fresh(Items(tree.shape) - old(Items(tree.shape)))
      ensures !mallocOk ==> Pending() == old(Pending())
      ensures |Pending()| == |old(Pending())| + if mallocOk then 1 else 0
      ensures mallocOk ==>
        && node != null && fresh(node) && node.data == data
        && Pending() == InsertSorted(old(Pending()), Elem(node as Node, node.key))
      ensures node != null && timeout < 0x1_0000_0000_0000_0000 && now < 0x1_0000_0000_0000_0000 ==>
        && node.key < 0x1_0000_0000_0000_0000
        && (node.key == timeout + now || node.key + 0x1_0000_0000_0000_0000 == timeout + now)
    {
      if !mallocOk {
        return -1, null;
      }
      ghost var nodes := Items(tree.shape);
      ItemsAllocated(tree.shape);
      var n := new Node(Sum64(timeout, now), data);
      assert Same(nodes);
      StackSuffices(tree.shape);
      IntoIsInsertSorted(Pending(), Elem(n, n.key));
      IntoSorted(Pending(), Elem(n, n.key));
      tree.Insert(n);
      return 0, n;
    }

    /** jk_timer_min_node: the pending timer with the least key. */
    method MinNode() returns (node: Node?)
      requires Valid()
      ensures Valid() && (node == null <==> Pending() == [])
      ensures node != null ==> Pending()[0] == Elem(node as Node, node.key) && node in Items(tree.shape)
    {
      node := tree.FindMin();
    }

    /** One turn of the loop, for a first timer that is due and that the search finds. */
    method Fire(node: Node, env: Env, i: nat, ghost bound: nat) returns (gone: seq<Node>)
      requires Valid() && ClockOk(env, bound) && |Pending()| < MAX_TIMERS
      requires Due(Pending(), env, i) && HeadFound(tree.shape) && Pending()[0] == Elem(node, node.key)
      requires node in Items(tree.shape)
      modifies tree`root, tree`shape, node`key
      modifies Items(tree.shape)`left, Items(tree.shape)`right, Items(tree.shape)`height
      ensures Valid() && Pending() == Turn(old(Pending()), env, i) && gone == FreedIn(old(Pending()), env, i)
      ensures old(tree.shape).Bin? && tree.shape == TreeTurn(old(tree.shape), env, i)
      ensures Items(tree.shape) <= old(Items(tree.shape))
      ensures if env.retval(i) > 0 then
          gone == [] && node in Items(tree.shape) && node.key == env.retval(i) + env.armClock(i)
        else
          gone == [node] && node !in Items(tree.shape)
    {
      ghost var t := tree.shape;
      FirstIsHead(t);
      TreeTurnFollows(t, env, i);
      Pop(node);
      var retval := env.retval(i);
      if retval > 0 {
        ArmKeyIsLater(env, bound, i);
        Rearm(node, Sum64(retval, env.armClock(i)));
        gone := [];
      } else {
        gone := [node];
      }
    }

    /** The first timer leaves the tree. */
    method Pop(node: Node)
      requires Valid() && tree.shape.Bin? && node == First(tree.shape) && HeadFound(tree.shape)
      requires |Pending()| < MAX_TIMERS
      modifies tree`root, tree`shape, Items(tree.shape)`left, Items(tree.shape)`right, Items(tree.shape)`height
      ensures Valid() && tree.shape == Removed(old(tree.shape), node) && |Pending()| < MAX_TIMERS
      ensures Items(tree.shape) == old(Items(tree.shape)) - {node}
    {
      StackSuffices(tree.shape);
      WithoutFirst(tree.shape);
      tree.KeyOf(node);
      tree.Remove(node);
    }

    /** And comes back under its new key. */
    method Rearm(node: Node, key: nat)
      requires Valid() && node !in Items(tree.shape) && |Pending()| < MAX_TIMERS
      modifies tree`root, tree`shape, Items(tree.shape)`left, Items(tree.shape)`right, Items(tree.shape)`height
      modifies node`left, node`right, node`height, node`key
      ensures Valid() && tree.shape == Inserted(old(tree.shape), node, key) && node.key == key
      ensures Items(tree.shape) == old(Items(tree.shape)) + {node}
    {
      node.key := key;
      assert Same(Items(tree.shape));
      StackSuffices(tree.shape);
      tree.Insert(node);
    }

    /**
     jk_timer_process_timeout makes exactly the run of TimerQueue: the first `nevents` turns
     fire, the next does not, and what is pending is the queue at that point.
     */
    method ProcessTimeout(env: Env, ghost bound: nat) returns (nevents: nat, freed: seq<Node>)
      requires Valid() && ClockOk(env, bound) && |Pending()| < MAX_TIMERS && HeadsFound(tree.shape, env)
      modifies tree`root, tree`shape
      modifies Items(tree.shape)`left, Items(tree.shape)`right, Items(tree.shape)`height, Items(tree.shape)`key
      ensures Valid() && Pending() == QueueAt(old(Pending()), env, nevents)
      ensures Runs(old(Pending()), env, nevents) && !Due(Pending(), env, nevents)
      ensures freed == FreedBy(old(Pending()), env, nevents)
      ensures tree.shape == TreeAt(old(tree.shape), env, nevents)
      ensures Items(tree.shape) <= old(Items(tree.shape)) && |Pending()| <= |old(Pending())|
    {
      nevents, freed := 0, [];
      ghost var q, t := Pending(), tree.shape;
      while true
        invariant Valid() && Items(tree.shape) <= Items(t) && |Pending()| <= |q|
        invariant tree.shape == TreeAt(t, env, nevents)
        invariant Pending() == QueueAt(q, env, nevents) && Runs(q, env, nevents)
        invariant freed == FreedBy(q, env, nevents)
        decreases Work(Pending(), bound)
      {
        var current := env.loopClock(nevents);
        var node := MinNode();
        if node == null || node.key > current {
          break;
        }
        assert DueAt(q, env, nevents);
        assert Runs(q, env, nevents + 1);
        assert FoundAt(t, env, nevents);
        QueueSorted(q, env, nevents + 1);
        WorkDecreases(Pending(), env, bound, nevents);
        var gone := Fire(node, env, nevents, bound);
        freed := freed + gone;
        nevents := nevents + 1;
      }
    }

    /** jk_timer_destroy frees every pending timer, and each of them once. */
    method Destroy() returns (freed: seq<Node>)
      requires Valid()
      ensures NoRepeats(freed) && Elements(freed) == Items(tree.shape)
    {
      freed := DestroyTree(tree.root, tree.shape);
    }
  }

  ghost predicate NoRepeats(s: seq<Node>) {
    forall i, j :: 0 <= i < j < |s| ==> s[i] != s[j]
  }

  ghost function Elements(s: seq<Node>): set<Node> {
    set n | n in s
  }

  lemma JoinedElements(l: seq<Node>, r: seq<Node>, node: Node)
    ensures Elements(l + r + [node]) == Elements(l) + {node} + Elements(r)
    ensures NoRepeats(l) && NoRepeats(r) && Elements(l) !! Elements(r) && node !in Elements(l + r) ==>
      NoRepeats(l + r + [node])
  {
    assert forall i :: 0 <= i < |l| ==> l[i] in Elements(l);
    assert forall i :: 0 <= i < |r| ==> r[i] in Elements(r);
  }

  /** jk_timer_tree_node_destroy; `freed` is the order of the calls to free. */
  method DestroyTree(node: Node?, ghost t: Tree<Node>) returns (freed: seq<Node>)
    requires Rep(t) && Distinct(t) && node == Top(t)
    ensures NoRepeats(freed) && Elements(freed) == Items(t)
    ensures node != null ==> freed != [] && freed[|freed| - 1] == node
    decreases t
  {
    if node == null {
      return [];
    }
    ItemsAllocated(t.right);
    var l := DestroyTree(node.left, t.left);
    var r := DestroyTree(node.right, t.right);
    freed := l + r + [node];
    JoinedElements(l, r, node);
  }
}
