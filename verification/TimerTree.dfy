/** The run of the loop over the tree, ties included: it is the run over the queue as long as the tree search finds
    the timer that is to fire. */
module TimerTree {
  import opened AvlShape
  import opened TimerQueue

  ghost predicate Sound<T>(t: Tree<T>) {
    Balanced(t) && Ordered(t)
  }

  /** What the tree keeps in any case. */
  ghost predicate Ordered<T>(t: Tree<T>) {
    Sorted(InOrder(t)) && Distinct(t)
  }

  ghost function First<T>(t: Tree<T>): T
    requires t.Bin?
  {
    if t.left.Leaf? then t.item else First(t.left)
  }

  lemma {:induction false} FirstIn<T>(t: Tree<T>)
    requires t.Bin?
    ensures First(t) in Items(t)
  {
    if t.left.Leaf? {
    } else {
      FirstIn(t.left);
    }
  }

  lemma {:induction false} FirstIsHead<T>(t: Tree<T>)
    requires t.Bin? && Distinct(t)
    ensures First(t) in Items(t)
    ensures InOrder(t) != [] && InOrder(t)[0] == Elem(First(t), SubtreeAt(t, First(t)).key)
  {
    FirstIn(t);
    if t.left.Leaf? {
      assert InOrder(t.left) == [];
    } else {
      FirstIsHead(t.left);
    }
  }

  /** The search for the first timer's key finds the first timer. */
  ghost predicate HeadFound<T>(t: Tree<T>) {
    t.Bin? ==>
      First(t) in Items(t) && var x := Found(t, SubtreeAt(t, First(t)).key); x.Bin? && x.item == First(t)
  }

  /** One turn of the loop on the tree. */
  ghost function TreeTurn<T>(t: Tree<T>, env: Env, i: nat): Tree<T>
    requires t.Bin?
  {
    FirstIn(t);
    var r := Removed(t, First(t));
    if env.retval(i) > 0 then Inserted(r, First(t), ArmKey(env, i)) else r
  }

  ghost function TreeAt<T>(t: Tree<T>, env: Env, n: nat): Tree<T> {
    if n == 0 then t
    else
      var r := TreeAt(t, env, n - 1);
      if r.Leaf? then Leaf else TreeTurn(r, env, n - 1)
  }

  lemma WithoutFirst<T>(t: Tree<T>)
    requires Distinct(t) && t.Bin?
    ensures InOrder(t) != [] && Without(InOrder(t), First(t)) == InOrder(t)[1..]
  {
    FirstIsHead(t);
    DistinctSequence(t);
    WithoutAbsent(InOrder(t)[1..], First(t));
  }

  lemma TreeTurnFollows<T>(t: Tree<T>, env: Env, i: nat)
    requires Sound(t) && t.Bin? && HeadFound(t)
    ensures Sound(TreeTurn(t, env, i)) && Items(TreeTurn(t, env, i)) <= Items(t)
    ensures InOrder(t) != [] && InOrder(TreeTurn(t, env, i)) == Turn(InOrder(t), env, i)
  {
    var z := First(t);
    var r := Removed(t, z);
    RemovedExactly(t, z);
    RemovedItems(t, z);
    WithoutFirst(t);
    FirstIsHead(t);
    if env.retval(i) > 0 {
      InsertedCorrect(r, z, ArmKey(env, i));
      IntoIsInsertSorted(InOrder(r), Elem(z, ArmKey(env, i)));
    }
  }

  /** The timer that is freed in a turn. */
  ghost function FreedFrom<T>(t: Tree<T>, env: Env, i: nat): set<T> {
    if t.Bin? && env.retval(i) <= 0 then {First(t)} else {}
  }

  /** What a turn does to the timers in any case. */
  lemma TreeTurnItems<T>(t: Tree<T>, env: Env, i: nat)
    requires Ordered(t) && t.Bin?
    ensures Ordered(TreeTurn(t, env, i)) && Items(TreeTurn(t, env, i)) !! FreedFrom(t, env, i)
    ensures Items(TreeTurn(t, env, i)) + FreedFrom(t, env, i) <= Items(t)
    ensures HeadFound(t) ==> Items(TreeTurn(t, env, i)) + FreedFrom(t, env, i) == Items(t)
  {
    FirstIn(t);
    var z := First(t);
    var r := Removed(t, z);
    RemovedItems(t, z);
    RemovedSorted(t, z);
    if env.retval(i) > 0 {
      InsertedItems(r, z, ArmKey(env, i));
      InsertedInOrder(r, z, ArmKey(env, i));
      InsertSortedSorted(InOrder(r), Elem(z, ArmKey(env, i)));
    }
  }

  /** If it finds another timer, that one is gone: not fired, not freed, and no longer pending. */
  lemma TreeTurnLoses<T>(t: Tree<T>, env: Env, i: nat)
    requires Ordered(t) && t.Bin? && !HeadFound(t)
    ensures First(t) in Items(t)
    ensures var x := Found(t, SubtreeAt(t, First(t)).key);
      && x.Bin? && x.item != First(t) && x.item in Items(t) && x.item !in Items(TreeTurn(t, env, i))
  {
    FirstIn(t);
    var z := First(t);
    var k := SubtreeAt(t, z).key;
    RemovedItems(t, z);
    KeyDescentPlugs(Here, t, k);
    PlugItems(KeyDescent(Here, t, k).0, Found(t, k));
    if env.retval(i) > 0 {
      InsertedItems(Removed(t, z), z, ArmKey(env, i));
    }
  }

  /** A turn on the tree is the turn of the queue if and only if the search finds the first timer. */
  lemma TurnExactIff<T>(t: Tree<T>, env: Env, i: nat)
    requires Sound(t) && t.Bin?
    ensures InOrder(t) != [] && (InOrder(TreeTurn(t, env, i)) == Turn(InOrder(t), env, i) <==> HeadFound(t))
  {
    FirstIsHead(t);
    if HeadFound(t) {
      TreeTurnFollows(t, env, i);
    } else {
      TreeTurnLoses(t, env, i);
      var x := Found(t, SubtreeAt(t, First(t)).key).item;
      ItemsInOrder(t, x);
      ItemsInOrder(TreeTurn(t, env, i), x);
      KeptByTurn(InOrder(t), env, i, x);
    }
  }

  /** The queue's turn keeps every timer but the first. */
  lemma KeptByTurn<T>(q: seq<Elem<T>>, env: Env, i: nat, x: T)
    requires q != [] && q[0].item != x && exists j :: 0 <= j < |q| && q[j].item == x
    ensures exists j :: 0 <= j < |Turn(q, env, i)| && Turn(q, env, i)[j].item == x
  {
    Occurs(q, x);
    if env.retval(i) > 0 {
      IntoCount(q[1..], Elem(q[0].item, ArmKey(env, i)), Of(x));
    }
    Occurs(Turn(q, env, i), x);
  }

  lemma {:induction false} Occurs<T>(q: seq<Elem<T>>, x: T)
    ensures Count(q, Of(x)) > 0 <==> exists j :: 0 <= j < |q| && q[j].item == x
  {
    if q == [] {
    } else {
      Occurs(q[1..], x);
      assert forall j :: 1 <= j < |q| ==> q[1..][j - 1] == q[j];
    }
  }

  ghost predicate FoundAt<T>(t: Tree<T>, env: Env, n: nat) {
    HeadFound(TreeAt(t, env, n))
  }

  /** At every turn that fires, the search finds the timer that is to fire. */
  ghost predicate HeadsFound<T>(t: Tree<T>, env: Env) {
    forall n :: 0 <= n && Runs(InOrder(t), env, n + 1) ==> FoundAt(t, env, n)
  }

  lemma RunsPrefix<T>(q: seq<Elem<T>>, env: Env, m: nat, n: nat)
    requires m <= n && Runs(q, env, n)
    ensures Runs(q, env, m)
  {
  }

  /** After n turns the tree holds the queue. */
  ghost predicate Follows<T>(t: Tree<T>, env: Env, n: nat) {
    Sound(TreeAt(t, env, n)) && InOrder(TreeAt(t, env, n)) == QueueAt(InOrder(t), env, n)
  }

  ghost predicate FoundBefore<T>(t: Tree<T>, env: Env, n: nat) {
    forall i :: 0 <= i < n ==> FoundAt(t, env, i)
  }

  lemma TreeStep<T>(t: Tree<T>, env: Env, n: nat)
    requires Follows(t, env, n) && DueAt(InOrder(t), env, n) && FoundAt(t, env, n)
    ensures Follows(t, env, n + 1)
  {
    TreeTurnFollows(TreeAt(t, env, n), env, n);
  }

  lemma {:induction false} FollowsOn<T>(t: Tree<T>, env: Env, m: nat, n: nat)
    requires m <= n && Follows(t, env, m) && Runs(InOrder(t), env, n) && FoundBefore(t, env, n)
    ensures Follows(t, env, n)
    decreases n - m
  {
    if m == n {
    } else {
      assert DueAt(InOrder(t), env, m) && FoundAt(t, env, m);
      TreeStep(t, env, m);
      FollowsOn(t, env, m + 1, n);
    }
  }

  /** The tree then goes through the same run as the queue. */
  lemma TreeFollows<T>(t: Tree<T>, env: Env, n: nat)
    requires Sound(t) && Runs(InOrder(t), env, n) && FoundBefore(t, env, n)
    ensures Follows(t, env, n)
  {
    FollowsOn(t, env, 0, n);
  }

  /** And only then: the tree goes through the run of the queue if and only if every search finds its timer. */
  lemma FollowsIff<T>(t: Tree<T>, env: Env, n: nat)
    requires Sound(t) && Runs(InOrder(t), env, n)
    ensures FoundBefore(t, env, n) <==> forall i :: 0 <= i <= n ==> Follows(t, env, i)
  {
    if FoundBefore(t, env, n) {
      forall i | 0 <= i <= n
        ensures Follows(t, env, i)
      {
        RunsPrefix(InOrder(t), env, i, n);
        TreeFollows(t, env, i);
      }
    } else {
      var i :| 0 <= i < n && !FoundAt(t, env, i);
      assert DueAt(InOrder(t), env, i);
      if Follows(t, env, i) {
        StrayFollowsNot(t, env, i);
      }
    }
  }

  lemma StrayFollowsNot<T>(t: Tree<T>, env: Env, n: nat)
    requires Follows(t, env, n) && DueAt(InOrder(t), env, n) && !FoundAt(t, env, n)
    ensures !Follows(t, env, n + 1)
  {
    TurnExactIff(TreeAt(t, env, n), env, n);
  }

  // ---------- What becomes of the timers ----------

  /** The timers freed in the first `n` turns on the tree. */
  ghost function FreedUpTo<T>(t: Tree<T>, env: Env, n: nat): set<T> {
    if n == 0 then {} else FreedUpTo(t, env, n - 1) + FreedFrom(TreeAt(t, env, n - 1), env, n - 1)
  }

  /** Every timer is still pending or has been freed. */
  ghost predicate NoneLost<T>(t: Tree<T>, env: Env, n: nat) {
    Items(TreeAt(t, env, n)) + FreedUpTo(t, env, n) == Items(t)
  }

  /** None is both, and none has come from elsewhere. */
  ghost predicate Accounted<T>(t: Tree<T>, env: Env, n: nat) {
    && Ordered(TreeAt(t, env, n)) && Items(TreeAt(t, env, n)) !! FreedUpTo(t, env, n)
    && Items(TreeAt(t, env, n)) + FreedUpTo(t, env, n) <= Items(t)
  }

  /** A turn keeps all timers if and only if none was lost before and the search finds the first. */
  lemma NextLosesIff<T>(t: Tree<T>, env: Env, n: nat)
    requires Accounted(t, env, n)
    ensures Accounted(t, env, n + 1)
    ensures NoneLost(t, env, n + 1) <==> NoneLost(t, env, n) && FoundAt(t, env, n)
  {
    var r := TreeAt(t, env, n);
    if r.Leaf? {
    } else {
      TreeTurnItems(r, env, n);
      if !HeadFound(r) {
        TreeTurnLoses(r, env, n);
      }
    }
  }

  /** After any number of turns every timer is pending or freed if and only if every search has found the timer that
      was to fire. What is lost once never comes back. */
  lemma {:induction false} NoneLostIff<T>(t: Tree<T>, env: Env, n: nat)
    requires Ordered(t)
    ensures Accounted(t, env, n) && (NoneLost(t, env, n) <==> FoundBefore(t, env, n))
  {
    if n == 0 {
    } else {
      NoneLostIff(t, env, n - 1);
      NextLosesIff(t, env, n - 1);
      FoundOneMore(t, env, n - 1);
    }
  }

  lemma FoundOneMore<T>(t: Tree<T>, env: Env, n: nat)
    ensures FoundBefore(t, env, n + 1) <==> FoundBefore(t, env, n) && FoundAt(t, env, n)
  {
  }

  // ---------- Ties ----------

  /** The timer about to fire shares its key with no other pending timer. */
  ghost predicate UniqueHead<T>(q: seq<Elem<T>>) {
    q != [] ==> forall i :: 1 <= i < |q| ==> q[i].key != q[0].key
  }

  ghost predicate NoTies<T>(q: seq<Elem<T>>, env: Env) {
    forall n :: 0 <= n && Runs(q, env, n + 1) ==> UniqueHead(QueueAt(q, env, n))
  }

  lemma UniqueIsFound<T>(t: Tree<T>)
    requires Sound(t) && UniqueHead(InOrder(t))
    ensures HeadFound(t)
  {
    if t.Bin? {
      FirstIsHead(t);
      UniqueKeyFound(t, 0);
    }
  }

  /** Without ties it always does. */
  lemma {:induction false} NoTiesUpTo<T>(t: Tree<T>, env: Env, n: nat)
    requires Sound(t) && NoTies(InOrder(t), env) && Runs(InOrder(t), env, n + 1)
    ensures FoundBefore(t, env, n + 1)
  {
    if n == 0 {
    } else {
      RunsPrefix(InOrder(t), env, n, n + 1);
      NoTiesUpTo(t, env, n - 1);
    }
    RunsPrefix(InOrder(t), env, n, n + 1);
    TreeFollows(t, env, n);
    UniqueIsFound(TreeAt(t, env, n));
  }

  lemma NoTiesSuffice<T>(t: Tree<T>, env: Env)
    requires Sound(t) && NoTies(InOrder(t), env)
    ensures HeadsFound(t, env)
  {
    forall n | 0 <= n && Runs(InOrder(t), env, n + 1)
      ensures FoundAt(t, env, n)
    {
      NoTiesUpTo(t, env, n);
    }
  }

  /** Distinct keys and fresh re-arms are enough for that. */
  lemma DistinctKeysSuffice<T>(t: Tree<T>, env: Env)
    requires Sound(t) && DistinctKeys(InOrder(t)) && forall i: nat :: FreshArm(InOrder(t), env, i)
    ensures HeadsFound(t, env)
  {
    forall n | 0 <= n && Runs(InOrder(t), env, n + 1)
      ensures UniqueHead(QueueAt(InOrder(t), env, n))
    {
      KeysStayDistinct(InOrder(t), env, n);
    }
    NoTiesSuffice(t, env);
  }

  /** With two timers of one key and a third that is not earlier, pushed in this order, the first turn empties the
      tree: the second and the third never fire and are never freed. */
  lemma TiesLoseTimers<T>(a: T, b: T, c: T, k: nat, m: nat, env: Env, i: nat)
    requires a != b && b != c && a != c && k <= m && env.retval(i) <= 0
    ensures var t := Inserted(Inserted(Inserted(Leaf, a, k), b, k), c, m);
      && InOrder(t) == [Elem(a, k), Elem(b, k), Elem(c, m)] && t.Bin? && !HeadFound(t)
      && TreeTurn(t, env, i) == Leaf && FreedIn(InOrder(t), env, i) == [a]
  {
    TwoEqualKeys(a, b, c, k, m);
    var t := Bin(Single(a, k), b, k, 2, Single(c, m));
    assert First(t) == First(Single(a, k)) == a;
  }
}
