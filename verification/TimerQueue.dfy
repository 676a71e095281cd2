/**
 The scheduler loop of jk_timer.c as a run over a sorted sequence. The clock and the callbacks are given as
 oracles, one reading of each per turn of the loop.
 */
module TimerQueue {
  import opened AvlShape

  const TWO31 := 0x8000_0000
  const TWO64 := 0x1_0000_0000_0000_0000

  /** `loopClock(i)` is read at the top of turn i, `retval(i)` is the int that its callback's result
      was stored in, and `armClock(i)` is read when that timer is armed again. */
  datatype Env = Env(loopClock: nat -> nat, armClock: nat -> nat, retval: nat -> int)

  /** The unsigned 64-bit sum of two numbers that each fit. */
  function Sum64(a: nat, b: nat): (r: nat)
    ensures a < TWO64 && b < TWO64 ==> r < TWO64 && (r == a + b || r + TWO64 == a + b)
  {
    if a + b < TWO64 then a + b else a + b - TWO64
  }

  function ArmKey(env: Env, i: nat): nat
    requires env.retval(i) > 0
  {
    Sum64(env.retval(i), env.armClock(i))
  }

  ghost predicate Due<T>(q: seq<Elem<T>>, env: Env, i: nat) {
    q != [] && q[0].key <= env.loopClock(i)
  }

  /** The stable insertion: before the first that is greater. */
  ghost function Into<T>(s: seq<Elem<T>>, e: Elem<T>): seq<Elem<T>> {
    if s == [] || s[0].key > e.key then [e] + s else [s[0]] + Into(s[1..], e)
  }

  /** It is what the tree does. */
  lemma {:induction false} IntoIsInsertSorted<T>(s: seq<Elem<T>>, e: Elem<T>)
    requires Sorted(s)
    ensures Into(s, e) == InsertSorted(s, e)
  {
    if s != [] && s[0].key > e.key {
      NoneUpTo(s, e.key);
      assert [] + [e] + s == [e] + s;
    } else if s != [] {
      IntoIsInsertSorted(s[1..], e);
      var a, b := UpTo(s[1..], e.key), Past(s[1..], e.key);
      assert [s[0]] + (a + [e] + b) == ([s[0]] + a) + [e] + b;
    }
  }

  /** One turn: the first timer leaves, and comes back with its new key if its callback asks for it. */
  ghost function Turn<T>(q: seq<Elem<T>>, env: Env, i: nat): seq<Elem<T>>
    requires q != []
  {
    if env.retval(i) > 0 then Into(q[1..], Elem(q[0].item, ArmKey(env, i))) else q[1..]
  }

  ghost function QueueAt<T>(q: seq<Elem<T>>, env: Env, n: nat): seq<Elem<T>> {
    if n == 0 then q
    else
      var r := QueueAt(q, env, n - 1);
      if r == [] then [] else Turn(r, env, n - 1)
  }

  ghost predicate DueAt<T>(q: seq<Elem<T>>, env: Env, i: nat) {
    Due(QueueAt(q, env, i), env, i)
  }

  /** The first `n` turns all fire. */
  ghost predicate Runs<T>(q: seq<Elem<T>>, env: Env, n: nat) {
    forall i :: 0 <= i < n ==> DueAt(q, env, i)
  }

  ghost predicate Ticks(env: Env, bound: nat, i: nat) {
    env.loopClock(i) <= env.armClock(i) <= env.loopClock(i + 1) && env.armClock(i) <= bound && env.retval(i) < TWO31
  }

  /** Readings never go back, stay within `bound`, and no key wraps around. */
  ghost predicate ClockOk(env: Env, bound: nat) {
    bound + TWO31 <= TWO64 && forall i: nat :: Ticks(env, bound, i)
  }

  lemma ArmKeyIsLater(env: Env, bound: nat, i: nat)
    requires ClockOk(env, bound) && env.retval(i) > 0
    ensures ArmKey(env, i) == env.retval(i) + env.armClock(i) > env.loopClock(i)
  {
    assert Ticks(env, bound, i);
  }

  lemma {:induction false} QueueSorted<T>(q: seq<Elem<T>>, env: Env, n: nat)
    requires Sorted(q)
    ensures Sorted(QueueAt(q, env, n)) && |QueueAt(q, env, n)| <= |q|
  {
    if n == 0 {
    } else {
      var r := QueueAt(q, env, n - 1);
      QueueSorted(q, env, n - 1);
      if r != [] && env.retval(n - 1) > 0 {
        IntoSorted(r[1..], Elem(r[0].item, ArmKey(env, n - 1)));
      }
    }
  }

  lemma IntoSorted<T>(s: seq<Elem<T>>, e: Elem<T>)
    requires Sorted(s)
    ensures Sorted(Into(s, e)) && |Into(s, e)| == |s| + 1
  {
    IntoIsInsertSorted(s, e);
    InsertSortedSorted(s, e);
    SplitJoins(s, e.key);
  }

  ghost predicate AllFrom<T>(s: seq<Elem<T>>, k: nat) {
    forall i :: 0 <= i < |s| ==> s[i].key >= k
  }

  lemma {:induction false} IntoFrom<T>(s: seq<Elem<T>>, e: Elem<T>, k: nat)
    requires AllFrom(s, k) && e.key >= k
    ensures AllFrom(Into(s, e), k)
  {
    if s == [] || s[0].key > e.key {
    } else {
      IntoFrom(s[1..], e, k);
    }
  }

  lemma TurnKeysLater<T>(q: seq<Elem<T>>, env: Env, bound: nat, i: nat)
    requires Sorted(q) && ClockOk(env, bound) && Due(q, env, i)
    ensures AllFrom(Turn(q, env, i), q[0].key)
  {
    assert AllFrom(q[1..], q[0].key);
    if env.retval(i) > 0 {
      ArmKeyIsLater(env, bound, i);
      IntoFrom(q[1..], Elem(q[0].item, ArmKey(env, i)), q[0].key);
    }
  }

  /** The key that fires in turn n, if that turn fires. */
  ghost function KeyAt<T>(q: seq<Elem<T>>, env: Env, n: nat): nat {
    if QueueAt(q, env, n) == [] then 0 else QueueAt(q, env, n)[0].key
  }

  lemma NextFiresLater<T>(q: seq<Elem<T>>, env: Env, bound: nat, n: nat)
    requires Sorted(q) && ClockOk(env, bound) && DueAt(q, env, n) && DueAt(q, env, n + 1)
    ensures KeyAt(q, env, n) <= KeyAt(q, env, n + 1)
  {
    var r := QueueAt(q, env, n);
    QueueSorted(q, env, n);
    TurnKeysLater(r, env, bound, n);
    assert QueueAt(q, env, n + 1) == Turn(r, env, n);
  }

  lemma {:induction false} KeysAscend<T>(q: seq<Elem<T>>, env: Env, bound: nat, i: nat, j: nat)
    requires Sorted(q) && ClockOk(env, bound) && i <= j && Runs(q, env, j + 1)
    ensures KeyAt(q, env, i) <= KeyAt(q, env, j)
    decreases j - i
  {
    if i == j {
    } else {
      assert DueAt(q, env, i) && DueAt(q, env, i + 1);
      NextFiresLater(q, env, bound, i);
      KeysAscend(q, env, bound, i + 1, j);
    }
  }

  /** Timers fire in the order of their keys, and none before its key. */
  lemma FiringOrder<T>(q: seq<Elem<T>>, env: Env, bound: nat, i: nat, j: nat)
    requires Sorted(q) && ClockOk(env, bound) && i < j && Runs(q, env, j + 1)
    ensures DueAt(q, env, i) && DueAt(q, env, j) && QueueAt(q, env, i)[0].key <= QueueAt(q, env, j)[0].key
    ensures QueueAt(q, env, i)[0].key <= env.loopClock(i)
  {
    assert DueAt(q, env, i) && DueAt(q, env, j);
    KeysAscend(q, env, bound, i, j);
  }

  // ---------- Nothing is lost ----------

  /** How many elements have the property, as a function to recurse along. */
  ghost function Count<E>(s: seq<E>, p: E -> bool): nat {
    if s == [] then 0 else (if p(s[0]) then 1 else 0) + Count(s[1..], p)
  }

  ghost function Is<E>(x: E): E -> bool {
    y => y == x
  }

  /** An entry of this timer, under whatever key. */
  ghost function Of<T>(t: T): Elem<T> -> bool {
    (e: Elem<T>) => e.item == t
  }

  lemma {:induction false} CountIsMultiplicity<E>(s: seq<E>, x: E)
    ensures Count(s, Is(x)) == multiset(s)[x]
  {
    if s == [] {
    } else {
      CountIsMultiplicity(s[1..], x);
      assert s == [s[0]] + s[1..];
    }
  }

  lemma {:induction false} CountConcat<E>(a: seq<E>, b: seq<E>, p: E -> bool)
    ensures Count(a + b, p) == Count(a, p) + Count(b, p)
  {
    if a == [] {
      assert a + b == b;
    } else {
      assert (a + b)[1..] == a[1..] + b;
      CountConcat(a[1..], b, p);
    }
  }

  lemma {:induction false} IntoCount<T>(s: seq<Elem<T>>, e: Elem<T>, p: Elem<T> -> bool)
    ensures Count(Into(s, e), p) == Count(s, p) + if p(e) then 1 else 0
  {
    if s == [] || s[0].key > e.key {
      assert Into(s, e)[1..] == s;
    } else {
      IntoCount(s[1..], e, p);
      assert Into(s, e)[1..] == Into(s[1..], e);
    }
  }

  /** Whether `x` is the entry that leaves the queue in turn i, and the one that enters it. */
  ghost function Leaves<T>(q: seq<Elem<T>>, x: Elem<T>): nat {
    if q != [] && q[0] == x then 1 else 0
  }

  ghost function Enters<T>(q: seq<Elem<T>>, env: Env, i: nat, x: Elem<T>): nat {
    if q != [] && env.retval(i) > 0 && Elem(q[0].item, ArmKey(env, i)) == x then 1 else 0
  }

  /** How often `x` fired in the first `n` turns, and how often it was armed in them. */
  ghost function Fired<T>(q: seq<Elem<T>>, env: Env, n: nat, x: Elem<T>): nat {
    if n == 0 then 0 else Fired(q, env, n - 1, x) + Leaves(QueueAt(q, env, n - 1), x)
  }

  ghost function Armed<T>(q: seq<Elem<T>>, env: Env, n: nat, x: Elem<T>): nat {
    if n == 0 then 0 else Armed(q, env, n - 1, x) + Enters(QueueAt(q, env, n - 1), env, n - 1, x)
  }

  lemma TurnConserves<T>(q: seq<Elem<T>>, env: Env, i: nat, x: Elem<T>)
    requires q != []
    ensures Count(Turn(q, env, i), Is(x)) + Leaves(q, x) == Count(q, Is(x)) + Enters(q, env, i, x)
  {
    if env.retval(i) > 0 {
      IntoCount(q[1..], Elem(q[0].item, ArmKey(env, i)), Is(x));
    }
  }

  lemma {:induction false} CountsConserved<T>(q: seq<Elem<T>>, env: Env, n: nat, x: Elem<T>)
    ensures Count(QueueAt(q, env, n), Is(x)) + Fired(q, env, n, x) == Count(q, Is(x)) + Armed(q, env, n, x)
  {
    if n == 0 {
    } else {
      CountsConserved(q, env, n - 1, x);
      if QueueAt(q, env, n - 1) != [] {
        TurnConserves(QueueAt(q, env, n - 1), env, n - 1, x);
      }
    }
  }

  /** Nothing is lost and nothing appears: what fired and what is pending is what was there and what was armed. */
  lemma RunConserves<T>(q: seq<Elem<T>>, env: Env, n: nat, x: Elem<T>)
    ensures multiset(QueueAt(q, env, n))[x] + Fired(q, env, n, x) == multiset(q)[x] + Armed(q, env, n, x)
  {
    CountsConserved(q, env, n, x);
    CountIsMultiplicity(QueueAt(q, env, n), x);
    CountIsMultiplicity(q, x);
  }

  /** The timers freed in the first `n` turns, in order. */
  ghost function FreedBy<T>(q: seq<Elem<T>>, env: Env, n: nat): seq<T> {
    if n == 0 then [] else FreedBy(q, env, n - 1) + FreedIn(QueueAt(q, env, n - 1), env, n - 1)
  }

  ghost function FreedIn<T>(q: seq<Elem<T>>, env: Env, i: nat): seq<T> {
    if q != [] && env.retval(i) <= 0 then [q[0].item] else []
  }

  /** What was freed stays freed, and in its place. */
  lemma {:induction false} FreedInOrder<T>(q: seq<Elem<T>>, env: Env, m: nat, n: nat)
    requires m <= n
    ensures FreedBy(q, env, m) <= FreedBy(q, env, n)
    decreases n
  {
    if m == n {
    } else {
      FreedInOrder(q, env, m, n - 1);
    }
  }

  lemma TurnTimers<T>(q: seq<Elem<T>>, env: Env, i: nat, t: T)
    requires q != []
    ensures Count(Turn(q, env, i), Of(t)) + Count(FreedIn(q, env, i), Is(t)) == Count(q, Of(t))
  {
    if env.retval(i) > 0 {
      IntoCount(q[1..], Elem(q[0].item, ArmKey(env, i)), Of(t));
    }
  }

  /** How often the timer was freed in the first `n` turns. */
  ghost function FreedCount<T>(q: seq<Elem<T>>, env: Env, n: nat, t: T): nat {
    if n == 0 then 0
    else FreedCount(q, env, n - 1, t) + Count(FreedIn(QueueAt(q, env, n - 1), env, n - 1), Is(t))
  }

  lemma {:induction false} FreedCounted<T>(q: seq<Elem<T>>, env: Env, n: nat, t: T)
    ensures Count(FreedBy(q, env, n), Is(t)) == FreedCount(q, env, n, t)
  {
    if n == 0 {
    } else {
      FreedCounted(q, env, n - 1, t);
      CountConcat(FreedBy(q, env, n - 1), FreedIn(QueueAt(q, env, n - 1), env, n - 1), Is(t));
    }
  }

  lemma {:induction false} TimersAddUp<T>(q: seq<Elem<T>>, env: Env, n: nat, t: T)
    ensures Count(QueueAt(q, env, n), Of(t)) + FreedCount(q, env, n, t) == Count(q, Of(t))
  {
    if n == 0 {
    } else {
      TimersAddUp(q, env, n - 1, t);
      if QueueAt(q, env, n - 1) != [] {
        TurnTimers(QueueAt(q, env, n - 1), env, n - 1, t);
      }
    }
  }

  /** Each timer is still pending or has been freed, and only once. */
  lemma FreedOrPending<T>(q: seq<Elem<T>>, env: Env, n: nat, t: T)
    ensures Count(QueueAt(q, env, n), Of(t)) + multiset(FreedBy(q, env, n))[t] == Count(q, Of(t))
  {
    TimersAddUp(q, env, n, t);
    FreedCounted(q, env, n, t);
    CountIsMultiplicity(FreedBy(q, env, n), t);
  }

  // ---------- Distinct keys ----------

  ghost predicate DistinctKeys<T>(q: seq<Elem<T>>) {
    forall i, j :: 0 <= i < j < |q| ==> q[i].key != q[j].key
  }

  /** The key that turn i arms, if any, is not that of another pending timer. */
  ghost predicate FreshArm<T>(q: seq<Elem<T>>, env: Env, i: nat) {
    var r := QueueAt(q, env, i);
    env.retval(i) > 0 ==> forall j :: 1 <= j < |r| ==> r[j].key != ArmKey(env, i)
  }

  /** Distinct keys stay distinct as long as every timer is armed with a fresh key. */
  lemma {:induction false} KeysStayDistinct<T>(q: seq<Elem<T>>, env: Env, n: nat)
    requires DistinctKeys(q) && forall i :: 0 <= i < n ==> FreshArm(q, env, i)
    ensures DistinctKeys(QueueAt(q, env, n))
  {
    if n == 0 {
    } else {
      KeysStayDistinct(q, env, n - 1);
      assert FreshArm(q, env, n - 1);
      var r := QueueAt(q, env, n - 1);
      if r != [] && env.retval(n - 1) > 0 {
        IntoDistinct(r[1..], Elem(r[0].item, ArmKey(env, n - 1)));
      }
    }
  }

  lemma {:induction false} IntoDistinct<T>(s: seq<Elem<T>>, e: Elem<T>)
    requires DistinctKeys(s) && forall j :: 0 <= j < |s| ==> s[j].key != e.key
    ensures DistinctKeys(Into(s, e))
    ensures forall j :: 0 <= j < |Into(s, e)| ==> Into(s, e)[j] == e || Into(s, e)[j] in s
  {
    if s == [] || s[0].key > e.key {
    } else {
      IntoDistinct(s[1..], e);
    }
  }

  /** When the loop stops, every pending timer lies in the future of the last reading. */
  lemma StopsWhenNoneDue<T>(q: seq<Elem<T>>, env: Env, n: nat)
    requires Sorted(q) && !Due(QueueAt(q, env, n), env, n)
    ensures forall e :: e in QueueAt(q, env, n) ==> e.key > env.loopClock(n)
  {
    QueueSorted(q, env, n);
  }

  // ---------- Termination ----------

  function Overdue(bound: nat, key: nat): nat {
    if key <= bound then bound + 1 - key else 0
  }

  ghost function Work<T>(q: seq<Elem<T>>, bound: nat): nat {
    if q == [] then 0 else Overdue(bound, q[0].key) + Work(q[1..], bound)
  }

  lemma {:induction false} IntoWork<T>(s: seq<Elem<T>>, e: Elem<T>, bound: nat)
    ensures Work(Into(s, e), bound) == Work(s, bound) + Overdue(bound, e.key)
  {
    if s == [] || s[0].key > e.key {
      assert Into(s, e)[1..] == s;
    } else {
      IntoWork(s[1..], e, bound);
      assert Into(s, e)[1..] == Into(s[1..], e);
    }
  }

  /** Every turn lowers the work left, also when the callback arms the timer again. */
  lemma WorkDecreases<T>(q: seq<Elem<T>>, env: Env, bound: nat, i: nat)
    requires ClockOk(env, bound) && Due(q, env, i)
    ensures Work(Turn(q, env, i), bound) < Work(q, bound)
  {
    assert Ticks(env, bound, i);
    if env.retval(i) > 0 {
      ArmKeyIsLater(env, bound, i);
      IntoWork(q[1..], Elem(q[0].item, ArmKey(env, i)), bound);
    }
  }

  /** One call fires at most as many timers as the work there was at its start. */
  lemma {:induction false} RunIsBounded<T>(q: seq<Elem<T>>, env: Env, bound: nat, n: nat)
    requires ClockOk(env, bound) && Runs(q, env, n)
    ensures n + Work(QueueAt(q, env, n), bound) <= Work(q, bound)
  {
    if n == 0 {
    } else {
      RunIsBounded(q, env, bound, n - 1);
      assert DueAt(q, env, n - 1);
      WorkDecreases(QueueAt(q, env, n - 1), env, bound, n - 1);
    }
  }
}
