/**
 jk_thread_pool.c as a transition system. A step is one critical section under the pool's lock, the return of a
 task's call or finish function, or a step of the destroying owner. Any worker may step at any time; a signal wakes
 at least one sleeping worker, a broadcast all of them, and a worker may wake without either
 (pthread_cond_signal, pthread_cond_broadcast, pthread_cond_wait of IEEE Std 1003.1).
 */
module PoolProtocol {
  /** A pushed task block; `finish` says whether it has a finish function. */
  datatype Task = Task(id: nat, finish: bool)

  /** Top: about to lock at the head of its loop, or woken. Crashed: has read through a null task list. */
  datatype Worker = Top | Asleep | Calling(task: Task) | Finishing(task: Task) | Exited | Crashed

  datatype Owner = Running | Joining | Draining | Destroyed

  /** The pool's fields, the threads, and what has been pushed, called, finished, freed after its run, freed unrun. */
  datatype Pool = Pool(
    tasks: seq<Task>, taskNums: int, quit: bool, workers: seq<Worker>, owner: Owner,
    pushed: multiset<Task>, calls: multiset<Task>, finishes: multiset<Task>,
    done: multiset<Task>, dropped: multiset<Task>)

  datatype Step =
    | Push(task: Task, wake: set<nat>)
    | Loop(w: nat)
    | Spurious(w: nat)
    | CallReturns(w: nat)
    | FinishReturns(w: nat)
    | Quit
    | Joined
    | FreeOne
    | DrainEnds

  function Init(threads: nat): Pool {
    Pool([], 0, false, seq(threads, _ => Top), Running, multiset{}, multiset{}, multiset{}, multiset{}, multiset{})
  }

  // ---------- Steps ----------

  predicate SomeAsleep(ws: seq<Worker>) {
    exists i :: 0 <= i < |ws| && ws[i].Asleep?
  }

  predicate AllExited(ws: seq<Worker>) {
    forall i :: 0 <= i < |ws| ==> ws[i].Exited?
  }

  /** pthread_cond_signal may wake these workers. */
  predicate Signals(ws: seq<Worker>, wake: set<nat>) {
    (forall i :: i in wake ==> i < |ws| && ws[i].Asleep?) && (SomeAsleep(ws) ==> wake != {})
  }

  function Woken(ws: seq<Worker>, wake: set<nat>): (r: seq<Worker>)
    ensures |r| == |ws|
  {
    if ws == [] then []
    else
      var n := |ws| - 1;
      Woken(ws[..n], wake) + [if n in wake then Top else ws[n]]
  }

  /** pthread_cond_broadcast */
  function AllWoken(ws: seq<Worker>): (r: seq<Worker>)
    ensures |r| == |ws|
  {
    if ws == [] then []
    else
      var n := |ws| - 1;
      AllWoken(ws[..n]) + [if ws[n].Asleep? then Top else ws[n]]
  }

  predicate Enabled(s: Pool, step: Step) {
    match step
    case Push(t, wake) => (s.owner.Running? || s.owner.Joining?) && t !in s.pushed && Signals(s.workers, wake)
    case Loop(w) => w < |s.workers| && s.workers[w].Top?
    case Spurious(w) => w < |s.workers| && s.workers[w].Asleep?
    case CallReturns(w) => w < |s.workers| && s.workers[w].Calling?
    case FinishReturns(w) => w < |s.workers| && s.workers[w].Finishing?
    case Quit => s.owner.Running?
    case Joined => s.owner.Joining? && AllExited(s.workers)
    case FreeOne => s.owner.Draining? && s.tasks != []
    case DrainEnds => s.owner.Draining? && s.tasks == []
  }

  /** The worker's critical section: leave, sleep, or take the newest task. */
  function LoopStep(s: Pool, w: nat): Pool
    requires w < |s.workers|
  {
    if s.quit then s.(workers := s.workers[w := Exited])
    else if s.taskNums <= 0 then s.(workers := s.workers[w := Asleep])
    else if s.tasks == [] then s.(workers := s.workers[w := Crashed])
    else
      var t := s.tasks[0];
      s.(tasks := s.tasks[1..], taskNums := s.taskNums - 1, workers := s.workers[w := Calling(t)],
         calls := s.calls + multiset{t})
  }

  /** The task's block is freed and the worker goes round its loop. */
  function TaskDone(s: Pool, w: nat, t: Task): Pool
    requires w < |s.workers|
  {
    s.(workers := s.workers[w := Top], done := s.done + multiset{t})
  }

  function Apply(s: Pool, step: Step): Pool
    requires Enabled(s, step)
  {
    match step
    case Push(t, wake) =>
      s.(tasks := [t] + s.tasks, taskNums := s.taskNums + 1, workers := Woken(s.workers, wake),
         pushed := s.pushed + multiset{t})
    case Loop(w) => LoopStep(s, w)
    case Spurious(w) => s.(workers := s.workers[w := Top])
    case CallReturns(w) =>
      var t := s.workers[w].task;
      if t.finish then s.(workers := s.workers[w := Finishing(t)], finishes := s.finishes + multiset{t})
      else TaskDone(s, w, t)
    case FinishReturns(w) => TaskDone(s, w, s.workers[w].task)
    case Quit => s.(quit := true, workers := AllWoken(s.workers), owner := Joining)
    case Joined => s.(owner := Draining)
    case FreeOne => s.(tasks := s.tasks[1..], taskNums := s.taskNums - 1, dropped := s.dropped + multiset{s.tasks[0]})
    case DrainEnds => s.(owner := Destroyed)
  }

  /** A run: every step is enabled where it is taken. */
  ghost predicate Runs(s: Pool, steps: seq<Step>, r: Pool)
    decreases |steps|
  {
    if steps == [] then r == s else Enabled(s, steps[0]) && Runs(Apply(s, steps[0]), steps[1..], r)
  }

  /** A worker's step. */
  predicate OfWorker(step: Step) {
    step.Loop? || step.Spurious? || step.CallReturns? || step.FinishReturns?
  }

  // ---------- Invariants ----------

  function Sum(ws: seq<Worker>, f: Worker -> nat): nat {
    if ws == [] then 0 else Sum(ws[..|ws| - 1], f) + f(ws[|ws| - 1])
  }

  function AtTop(): Worker -> nat {
    (w: Worker) => if w.Top? then 1 else 0
  }

  function Holding(t: Task): Worker -> nat {
    (w: Worker) => if (w.Calling? || w.Finishing?) && w.task == t then 1 else 0
  }

  function InFinish(t: Task): Worker -> nat {
    (w: Worker) => if w.Finishing? && w.task == t then 1 else 0
  }

  function WithTask(): Worker -> nat {
    (w: Worker) => if w.Calling? || w.Finishing? then 1 else 0
  }

  /** The workers that have a task in hand. */
  function Busy(ws: seq<Worker>): nat {
    Sum(ws, WithTask())
  }

  /** The workers that are about to look for a task. */
  function Tops(ws: seq<Worker>): nat {
    Sum(ws, AtTop())
  }

  /** How many workers have this task in hand, and how many are in its finish function. */
  function Held(ws: seq<Worker>, t: Task): nat {
    Sum(ws, Holding(t))
  }

  function Ending(ws: seq<Worker>, t: Task): nat {
    Sum(ws, InFinish(t))
  }

  /** The count is right, and nobody reads through a null list. */
  predicate Counted(s: Pool) {
    s.taskNums == |s.tasks| && forall i :: 0 <= i < |s.workers| ==> !s.workers[i].Crashed?
  }

  /** Nobody sleeps over work: sleepers leave no more tasks than there are free workers awake. */
  predicate WorkConserving(s: Pool) {
    SomeAsleep(s.workers) ==> |s.tasks| <= Tops(s.workers)
  }

  predicate NoneExited(ws: seq<Worker>) {
    forall i :: 0 <= i < |ws| ==> !ws[i].Exited?
  }

  predicate QuitKept(s: Pool) {
    && (s.quit <==> !s.owner.Running?)
    && (s.quit ==> !SomeAsleep(s.workers))
    && (!s.quit ==> NoneExited(s.workers))
    && (s.owner.Draining? || s.owner.Destroyed? ==> AllExited(s.workers))
    && (s.owner.Destroyed? ==> s.tasks == [])
    && (s.dropped != multiset{} ==> s.owner.Draining? || s.owner.Destroyed?)
  }

  /** Every pushed task is in one place, has been called once if a worker has taken it from the list, and finished
      once if it should. */
  ghost predicate Conserved(s: Pool) {
    forall t :: Accounted(s, t)
  }

  ghost predicate Accounted(s: Pool, t: Task) {
    && s.pushed[t] == multiset(s.tasks)[t] + Held(s.workers, t) + s.done[t] + s.dropped[t]
    && s.pushed[t] <= 1
    && s.calls[t] == Held(s.workers, t) + s.done[t]
    && s.finishes[t] == (if t.finish then Ending(s.workers, t) + s.done[t] else 0)
    && (!t.finish ==> Ending(s.workers, t) == 0)
  }

  /** The same in numbers. */
  predicate Balanced(s: Pool) {
    |s.pushed| == |s.tasks| + Busy(s.workers) + |s.done| + |s.dropped|
  }

  ghost predicate Inv(s: Pool) {
    Counted(s) && WorkConserving(s) && QuitKept(s) && Conserved(s) && Balanced(s)
  }

  // ---------- What one worker's change does to the counts ----------

  lemma {:induction false} SumUpdate(ws: seq<Worker>, f: Worker -> nat, w: nat, x: Worker)
    requires w < |ws|
    ensures Sum(ws[w := x], f) + f(ws[w]) == Sum(ws, f) + f(x)
    ensures f(ws[w]) <= Sum(ws, f)
  {
    var n := |ws| - 1;
    if w < n {
      SumUpdate(ws[..n], f, w, x);
      assert ws[w := x][..n] == ws[..n][w := x];
    } else {
      assert ws[w := x][..n] == ws[..n];
    }
  }

  lemma {:induction false} WokenAt(ws: seq<Worker>, wake: set<nat>, i: nat)
    requires i < |ws|
    ensures Woken(ws, wake)[i] == if i in wake then Top else ws[i]
  {
    if i == |ws| - 1 {
    } else {
      WokenAt(ws[..|ws| - 1], wake, i);
    }
  }

  lemma {:induction false} AllWokenAt(ws: seq<Worker>, i: nat)
    requires i < |ws|
    ensures AllWoken(ws)[i] == if ws[i].Asleep? then Top else ws[i]
  {
    if i == |ws| - 1 {
    } else {
      AllWokenAt(ws[..|ws| - 1], i);
    }
  }

  /** A signal changes a sum only by what woken workers count. */
  lemma {:induction false} WokenSum(ws: seq<Worker>, wake: set<nat>, f: Worker -> nat)
    requires forall i :: i in wake && i < |ws| ==> ws[i].Asleep?
    requires f(Asleep) <= f(Top)
    ensures f(Asleep) == f(Top) ==> Sum(Woken(ws, wake), f) == Sum(ws, f)
    ensures Sum(Woken(ws, wake), f) >= Sum(ws, f)
    ensures f(Asleep) < f(Top) && (exists i :: i in wake && i < |ws|) ==> Sum(Woken(ws, wake), f) > Sum(ws, f)
  {
    if ws == [] {
    } else {
      var n := |ws| - 1;
      WokenSum(ws[..n], wake, f);
      assert Woken(ws, wake)[..n] == Woken(ws[..n], wake);
      if i :| i in wake && i < |ws| && i != n {
        assert i in wake && i < |ws[..n]|;
      }
    }
  }

  lemma {:induction false} AllWokenSum(ws: seq<Worker>, f: Worker -> nat)
    requires f(Asleep) == f(Top)
    ensures Sum(AllWoken(ws), f) == Sum(ws, f)
  {
    if ws == [] {
    } else {
      var n := |ws| - 1;
      AllWokenSum(ws[..n], f);
      assert AllWoken(ws)[..n] == AllWoken(ws[..n]);
    }
  }

  lemma {:induction false} ZeroSum(ws: seq<Worker>, f: Worker -> nat)
    ensures Sum(ws, f) == 0 <==> forall i :: 0 <= i < |ws| ==> f(ws[i]) == 0
  {
    if ws == [] {
    } else {
      ZeroSum(ws[..|ws| - 1], f);
      assert forall i :: 0 <= i < |ws| - 1 ==> ws[..|ws| - 1][i] == ws[i];
    }
  }

  // ---------- Every step keeps the invariants ----------

  lemma InitInv(threads: nat)
    ensures Inv(Init(threads))
  {
    var s := Init(threads);
    ZeroSum(s.workers, WithTask());
    forall t
      ensures Accounted(s, t)
    {
      ZeroSum(s.workers, Holding(t));
      ZeroSum(s.workers, InFinish(t));
    }
  }

  lemma CountedKept(s: Pool, step: Step)
    requires Counted(s) && Enabled(s, step)
    ensures Counted(Apply(s, step))
  {
    var s' := Apply(s, step);
    forall i | 0 <= i < |s'.workers|
      ensures !s'.workers[i].Crashed?
    {
      match step
      case Push(t, wake) => WokenAt(s.workers, wake, i);
      case Quit => AllWokenAt(s.workers, i);
      case _ =>
    }
  }

  /** Sleepers after a step: only a worker that found no task joins them. */
  lemma AsleepAfter(s: Pool, step: Step)
    requires Counted(s) && Enabled(s, step) && SomeAsleep(Apply(s, step).workers)
    ensures SomeAsleep(s.workers) || (step.Loop? && !s.quit && s.tasks == [])
    ensures !step.Quit?
  {
    var s' := Apply(s, step);
    var i :| 0 <= i < |s'.workers| && s'.workers[i].Asleep?;
    match step
    case Push(t, wake) => WokenAt(s.workers, wake, i); assert s.workers[i].Asleep?;
    case Quit => AllWokenAt(s.workers, i);
    case Loop(w) => if i != w { assert s.workers[i].Asleep?; }
    case Spurious(w) => assert s.workers[i].Asleep?;
    case CallReturns(w) => assert s.workers[i].Asleep?;
    case FinishReturns(w) => assert s.workers[i].Asleep?;
    case _ => assert s.workers[i].Asleep?;
  }

  lemma WorkConservingKept(s: Pool, step: Step)
    requires Counted(s) && WorkConserving(s) && QuitKept(s) && Enabled(s, step)
    ensures WorkConserving(Apply(s, step))
  {
    var s' := Apply(s, step);
    if SomeAsleep(s'.workers) {
      AsleepAfter(s, step);
      match step
      case Push(t, wake) =>
        WokenSum(s.workers, wake, AtTop());
        var i :| i in wake;
        assert i in wake && i < |s.workers|;
      case Loop(w) =>
        if s.tasks != [] {
          SumUpdate(s.workers, AtTop(), w, Calling(s.tasks[0]));
        }
      case Spurious(w) => SumUpdate(s.workers, AtTop(), w, Top);
      case CallReturns(w) =>
        SumUpdate(s.workers, AtTop(), w, s'.workers[w]);
      case FinishReturns(w) => SumUpdate(s.workers, AtTop(), w, Top);
      case _ =>
    }
  }

  lemma QuitKeptKept(s: Pool, step: Step)
    requires Counted(s) && QuitKept(s) && Enabled(s, step)
    ensures QuitKept(Apply(s, step))
  {
    if SomeAsleep(Apply(s, step).workers) {
      AsleepAfter(s, step);
    }
    if !Apply(s, step).quit {
      NoneExitedAfter(s, step);
    }
  }

  lemma NoneExitedAfter(s: Pool, step: Step)
    requires NoneExited(s.workers) && Enabled(s, step) && !s.quit && !Apply(s, step).quit
    ensures NoneExited(Apply(s, step).workers)
  {
    if step.Push? {
      forall i | 0 <= i < |s.workers|
        ensures !Woken(s.workers, step.wake)[i].Exited?
      {
        WokenAt(s.workers, step.wake, i);
      }
    }
  }

  lemma ConservedKept(s: Pool, step: Step)
    requires Counted(s) && Conserved(s) && Enabled(s, step)
    ensures Conserved(Apply(s, step))
  {
    forall t
      ensures Accounted(Apply(s, step), t)
    {
      assert Accounted(s, t);
      AccountedKept(s, step, t);
    }
  }

  lemma AccountedKept(s: Pool, step: Step, t: Task)
    requires Counted(s) && Accounted(s, t) && Enabled(s, step)
    ensures Accounted(Apply(s, step), t)
  {
    match step
    case Push(u, wake) => PushAccounted(s, u, wake, t);
    case Quit => QuitAccounted(s, t);
    case FreeOne => FreeAccounted(s, t);
    case Loop(w) => LoopAccounted(s, w, t);
    case Spurious(w) => SpuriousAccounted(s, w, t);
    case CallReturns(w) => CallAccounted(s, w, t);
    case FinishReturns(w) => DoneAccounted(s, w, t);
    case _ =>
  }

  lemma QuitAccounted(s: Pool, t: Task)
    requires Accounted(s, t) && Enabled(s, Quit)
    ensures Accounted(Apply(s, Quit), t)
  {
    AllWokenSum(s.workers, Holding(t));
    AllWokenSum(s.workers, InFinish(t));
  }

  lemma FreeAccounted(s: Pool, t: Task)
    requires Accounted(s, t) && Enabled(s, FreeOne)
    ensures Accounted(Apply(s, FreeOne), t)
  {
    assert s.tasks == [s.tasks[0]] + s.tasks[1..];
  }

  lemma SpuriousAccounted(s: Pool, w: nat, t: Task)
    requires Accounted(s, t) && Enabled(s, Spurious(w))
    ensures Accounted(Apply(s, Spurious(w)), t)
  {
    SumUpdate(s.workers, Holding(t), w, Top);
    SumUpdate(s.workers, InFinish(t), w, Top);
  }

  lemma PushAccounted(s: Pool, u: Task, wake: set<nat>, t: Task)
    requires Accounted(s, t) && Enabled(s, Push(u, wake))
    ensures Accounted(Apply(s, Push(u, wake)), t)
  {
    WokenSum(s.workers, wake, Holding(t));
    WokenSum(s.workers, wake, InFinish(t));
  }

  lemma CallAccounted(s: Pool, w: nat, t: Task)
    requires Accounted(s, t) && Enabled(s, CallReturns(w))
    ensures Accounted(Apply(s, CallReturns(w)), t)
  {
    var u := s.workers[w].task;
    if u.finish {
      SumUpdate(s.workers, Holding(t), w, Finishing(u));
      SumUpdate(s.workers, InFinish(t), w, Finishing(u));
    } else {
      DoneAccounted(s, w, t);
    }
  }

  lemma DoneAccounted(s: Pool, w: nat, t: Task)
    requires Accounted(s, t) && w < |s.workers|
    requires s.workers[w].Finishing? || (s.workers[w].Calling? && !s.workers[w].task.finish)
    ensures Accounted(TaskDone(s, w, s.workers[w].task), t)
  {
    SumUpdate(s.workers, Holding(t), w, Top);
    SumUpdate(s.workers, InFinish(t), w, Top);
  }

  lemma LoopAccounted(s: Pool, w: nat, t: Task)
    requires Counted(s) && Accounted(s, t) && Enabled(s, Loop(w))
    ensures Accounted(LoopStep(s, w), t)
  {
    if !s.quit && s.taskNums > 0 {
      TakeAccounted(s, w, t);
    } else {
      var x := if s.quit then Exited else Asleep;
      SumUpdate(s.workers, Holding(t), w, x);
      SumUpdate(s.workers, InFinish(t), w, x);
    }
  }

  lemma TakeAccounted(s: Pool, w: nat, t: Task)
    requires Counted(s) && Accounted(s, t) && Enabled(s, Loop(w)) && !s.quit && s.taskNums > 0
    ensures Accounted(LoopStep(s, w), t)
  {
    SumUpdate(s.workers, Holding(t), w, Calling(s.tasks[0]));
    SumUpdate(s.workers, InFinish(t), w, Calling(s.tasks[0]));
    assert s.tasks == [s.tasks[0]] + s.tasks[1..];
  }

  lemma BalancedKept(s: Pool, step: Step)
    requires Counted(s) && Balanced(s) && Enabled(s, step)
    ensures Balanced(Apply(s, step))
  {
    match step
    case Push(t, wake) => WokenSum(s.workers, wake, WithTask());
    case Quit => AllWokenSum(s.workers, WithTask());
    case FreeOne =>
    case Joined =>
    case DrainEnds =>
    case _ => WorkerBalanced(s, step);
  }

  lemma WorkerBalanced(s: Pool, step: Step)
    requires Counted(s) && Balanced(s) && Enabled(s, step) && OfWorker(step)
    ensures Balanced(Apply(s, step))
  {
    SumUpdate(s.workers, WithTask(), step.w, Apply(s, step).workers[step.w]);
  }

  lemma InvKept(s: Pool, step: Step)
    requires Inv(s) && Enabled(s, step)
    ensures Inv(Apply(s, step))
  {
    CountedKept(s, step);
    WorkConservingKept(s, step);
    QuitKeptKept(s, step);
    ConservedKept(s, step);
    BalancedKept(s, step);
  }

  /** Over every run of every number of threads, none of which comes or goes. */
  lemma {:induction false} InvOverRuns(s: Pool, steps: seq<Step>, r: Pool)
    requires Inv(s) && Runs(s, steps, r)
    ensures Inv(r) && |r.workers| == |s.workers|
    decreases |steps|
  {
    if steps == [] {
    } else {
      FirstStep(s, steps, r);
      InvOverRuns(Apply(s, steps[0]), steps[1..], r);
    }
  }

  lemma FirstStep(s: Pool, steps: seq<Step>, r: Pool)
    requires Inv(s) && Runs(s, steps, r) && steps != []
    ensures Enabled(s, steps[0]) && Runs(Apply(s, steps[0]), steps[1..], r)
    ensures Inv(Apply(s, steps[0])) && |Apply(s, steps[0]).workers| == |s.workers|
  {
    var s' := Stepped(s, steps[0]);
  }

  lemma Stepped(s: Pool, step: Step) returns (s': Pool)
    requires Inv(s) && Enabled(s, step)
    ensures s' == Apply(s, step) && Inv(s') && |s'.workers| == |s.workers|
  {
    s' := Apply(s, step);
    InvKept(s, step);
    WorkersStay(s, step);
  }

  lemma WorkersStay(s: Pool, step: Step)
    requires Enabled(s, step)
    ensures |Apply(s, step).workers| == |s.workers|
  {
  }

  // ---------- What users of the pool get ----------

  /** In every reachable state: sleepers never leave work lying, so a waiting task means somebody is awake. */
  lemma NoSleepOverWork(threads: nat, steps: seq<Step>, r: Pool)
    requires Runs(Init(threads), steps, r)
    ensures r.taskNums == |r.tasks|
    ensures SomeAsleep(r.workers) ==> |r.tasks| <= Tops(r.workers)
    ensures r.tasks != [] && r.workers != [] ==> exists i :: 0 <= i < |r.workers| && !r.workers[i].Asleep?
    ensures forall i :: 0 <= i < |r.workers| ==> !r.workers[i].Crashed?
  {
    InitInv(threads);
    InvOverRuns(Init(threads), steps, r);
    if r.tasks != [] && r.workers != [] && r.workers[0].Asleep? {
      ZeroSum(r.workers, AtTop());
    }
  }

  /** The steps a worker can still take once the quit flag is up. */
  function StepsLeft(w: Worker): nat {
    match w
    case Top => 1
    case Finishing(_) => 2
    case Calling(_) => 3
    case _ => 0
  }

  function Remaining(ws: seq<Worker>): nat {
    Sum(ws, StepsLeft)
  }

  lemma {:induction false} RemainingBound(ws: seq<Worker>)
    ensures Remaining(ws) <= 3 * |ws|
  {
    if ws == [] {
    } else {
      RemainingBound(ws[..|ws| - 1]);
    }
  }

  /** After the quit flag a worker's step brings it nearer to its exit, no other step takes a worker back,
      and no task is begun. */
  lemma QuitStep(s: Pool, step: Step)
    requires Inv(s) && s.quit && Enabled(s, step)
    ensures var s' := Apply(s, step);
      && s'.quit && s'.calls == s.calls
      && (if OfWorker(step) then Remaining(s'.workers) < Remaining(s.workers) else s'.workers == s.workers)
  {
    if OfWorker(step) {
      QuitWorkerStep(s, step);
    } else if step.Push? {
      assert step.wake == {} by {
        if i :| i in step.wake {
          assert false;
        }
      }
      NobodyWoken(s.workers);
    }
  }

  lemma QuitWorkerStep(s: Pool, step: Step)
    requires QuitKept(s) && s.quit && Enabled(s, step) && OfWorker(step)
    ensures var s' := Apply(s, step);
      s'.quit && s'.calls == s.calls && Remaining(s'.workers) < Remaining(s.workers)
  {
    var x := Apply(s, step).workers[step.w];
    assert Apply(s, step).workers == s.workers[step.w := x];
    SumUpdate(s.workers, StepsLeft, step.w, x);
  }

  lemma {:induction false} NobodyWoken(ws: seq<Worker>)
    ensures Woken(ws, {}) == ws
  {
    if ws == [] {
    } else {
      NobodyWoken(ws[..|ws| - 1]);
    }
  }

  function WorkerSteps(steps: seq<Step>): nat {
    if steps == [] then 0 else (if OfWorker(steps[0]) then 1 else 0) + WorkerSteps(steps[1..])
  }

  /** The places of the workers' steps. */
  function WorkerPlaces(steps: seq<Step>): set<nat> {
    set i: nat | i < |steps| && OfWorker(steps[i])
  }

  /** They are counted one by one. */
  lemma {:induction false} WorkerStepsCounted(steps: seq<Step>)
    ensures WorkerSteps(steps) == |WorkerPlaces(steps)|
  {
    if steps == [] {
    } else {
      var n := |steps| - 1;
      WorkerStepsCounted(steps[..n]);
      WorkerStepsLast(steps);
      WorkerPlacesLast(steps);
    }
  }

  lemma WorkerPlacesLast(steps: seq<Step>)
    requires steps != []
    ensures var n := |steps| - 1;
      |WorkerPlaces(steps)| == |WorkerPlaces(steps[..n])| + if OfWorker(steps[n]) then 1 else 0
  {
    var n := |steps| - 1;
    var before := WorkerPlaces(steps[..n]);
    assert n !in before;
    if OfWorker(steps[n]) {
      assert WorkerPlaces(steps) == before + {n};
    } else {
      assert WorkerPlaces(steps) == before;
    }
  }

  lemma {:induction false} WorkerStepsLast(steps: seq<Step>)
    requires steps != []
    ensures WorkerSteps(steps) == WorkerSteps(steps[..|steps| - 1]) + if OfWorker(steps[|steps| - 1]) then 1 else 0
  {
    if |steps| == 1 {
    } else {
      WorkerStepsLast(steps[1..]);
      assert steps[1..][..|steps| - 2] == steps[..|steps| - 1][1..];
    }
  }

  /** Shutdown: after the quit flag the workers together take at most three steps each, whatever else happens,
      and begin no task. */
  lemma {:induction false} ShutdownIsBounded(s: Pool, steps: seq<Step>, r: Pool)
    requires Inv(s) && s.quit && Runs(s, steps, r)
    ensures r.quit && !SomeAsleep(r.workers) && r.calls == s.calls
    ensures WorkerSteps(steps) + Remaining(r.workers) <= Remaining(s.workers) <= 3 * |s.workers|
    decreases |steps|
  {
    RemainingBound(s.workers);
    if steps == [] {
    } else {
      QuitStep(s, steps[0]);
      FirstStep(s, steps, r);
      ShutdownIsBounded(Apply(s, steps[0]), steps[1..], r);
    }
  }

  /** And none of them can be stuck: until it has exited, a worker's next step is enabled. When no steps are left,
      the joins return. */
  lemma ShutdownGoesOn(s: Pool)
    requires Inv(s) && s.quit
    ensures forall w :: 0 <= w < |s.workers| && !s.workers[w].Exited? ==>
      exists step :: OfWorker(step) && step.w == w && Enabled(s, step)
    ensures Remaining(s.workers) == 0 <==> AllExited(s.workers)
    ensures s.owner.Joining? && AllExited(s.workers) ==> Enabled(s, Joined)
  {
    forall w | 0 <= w < |s.workers| && !s.workers[w].Exited?
      ensures exists step :: OfWorker(step) && step.w == w && Enabled(s, step)
    {
      var x := s.workers[w];
      var step := if x.Top? then Loop(w) else if x.Calling? then CallReturns(w) else FinishReturns(w);
      assert OfWorker(step) && step.w == w && Enabled(s, step);
    }
    ZeroSum(s.workers, StepsLeft);
  }

  /** The next step on the way to the end of a destruction: a worker's while one is running, then the owner's. */
  lemma NextToEnd(s: Pool) returns (step: Step)
    requires Inv(s) && s.quit && !s.owner.Destroyed?
    ensures Enabled(s, step)
    ensures s.owner.Joining? && !AllExited(s.workers) ==> OfWorker(step)
    ensures s.owner.Joining? && AllExited(s.workers) ==> step.Joined?
    ensures s.owner.Draining? ==> step == if s.tasks == [] then DrainEnds else FreeOne
  {
    if s.owner.Joining? && !AllExited(s.workers) {
      var w :| 0 <= w < |s.workers| && !s.workers[w].Exited?;
      var x := s.workers[w];
      step := if x.Top? then Loop(w) else if x.Calling? then CallReturns(w) else FinishReturns(w);
    } else if s.owner.Joining? {
      step := Joined;
    } else {
      step := if s.tasks == [] then DrainEnds else FreeOne;
    }
  }

  /** How far the owner has to go. */
  function OwnerLeft(o: Owner): nat {
    match o
    case Running => 3
    case Joining => 2
    case Draining => 1
    case Destroyed => 0
  }

  /** And so a destruction that has begun can always be brought to its end. */
  lemma {:induction false} DestroyEnds(s: Pool) returns (steps: seq<Step>, r: Pool)
    requires Inv(s) && s.quit
    ensures Runs(s, steps, r) && r.owner.Destroyed?
    decreases Remaining(s.workers), OwnerLeft(s.owner), |s.tasks|
  {
    if s.owner.Destroyed? {
      steps, r := [], s;
    } else {
      var step := NextToEnd(s);
      var s' := Stepped(s, step);
      CloserToEnd(s, step);
      var rest;
      rest, r := DestroyEnds(s');
      steps := [step] + rest;
      assert steps[1..] == rest;
    }
  }

  lemma CloserToEnd(s: Pool, step: Step)
    requires Inv(s) && s.quit && Enabled(s, step)
    requires OfWorker(step) || step.Joined? || step.FreeOne? || step.DrainEnds?
    ensures var s' := Apply(s, step);
      && s'.quit && Remaining(s'.workers) <= Remaining(s.workers)
      && (Remaining(s'.workers) == Remaining(s.workers) ==>
            OwnerLeft(s'.owner) < OwnerLeft(s.owner) ||
            (OwnerLeft(s'.owner) == OwnerLeft(s.owner) && |s'.tasks| < |s.tasks|))
  {
    QuitStep(s, step);
  }

  /** Run once, and its finish function once if it has one; or freed unrun once. */
  ghost predicate OnceOrDropped(s: Pool, t: Task) {
    if t in s.calls then
      s.calls[t] == s.done[t] == 1 && s.dropped[t] == 0 && s.finishes[t] == if t.finish then 1 else 0
    else
      s.done[t] == s.finishes[t] == 0 && s.dropped[t] == 1
  }

  /** When the pool is destroyed, this is what has happened to every task that was ever pushed, and to no other. */
  lemma EachTaskOnce(threads: nat, steps: seq<Step>, r: Pool)
    requires Runs(Init(threads), steps, r) && r.owner.Destroyed?
    ensures r.tasks == [] && r.taskNums == 0 && AllExited(r.workers)
    ensures forall t :: t in r.pushed <==> OnceOrDropped(r, t)
  {
    InitInv(threads);
    InvOverRuns(Init(threads), steps, r);
    forall t
      ensures t in r.pushed <==> OnceOrDropped(r, t)
    {
      assert Accounted(r, t);
      ZeroSum(r.workers, Holding(t));
      ZeroSum(r.workers, InFinish(t));
    }
  }

  /** A run goes on with one more step. */
  lemma {:induction false} RunOn(s: Pool, steps: seq<Step>, r: Pool, step: Step) returns (steps': seq<Step>)
    requires Runs(s, steps, r) && Enabled(r, step)
    ensures Runs(s, steps', Apply(r, step)) && steps' == steps + [step]
    decreases |steps|
  {
    steps' := steps + [step];
    if steps == [] {
      assert Runs(Apply(s, step), steps'[1..], Apply(r, step));
    } else {
      var rest := RunOn(Apply(s, steps[0]), steps[1..], r, step);
      assert steps'[1..] == rest;
    }
  }

  // ---------- How long a task waits ----------

  /** What a step does to the tasks in front of a waiting one: one less, one more, or nothing. */
  function Ahead(s: Pool, step: Step): int {
    match step
    case Push(_, _) => -1
    case Loop(_) => if !s.quit && s.taskNums > 0 then 1 else 0
    case FreeOne => 1
    case _ => 0
  }

  /** The most by which, up to some point of the run, more tasks have left the list than have come into it. */
  ghost function MostAhead(s: Pool, steps: seq<Step>): int
    decreases |steps|
  {
    if steps == [] || !Enabled(s, steps[0]) then 0
    else
      var m := Ahead(s, steps[0]) + MostAhead(Apply(s, steps[0]), steps[1..]);
      if m > 0 then m else 0
  }

  lemma DepthAfter(s: Pool, step: Step, t: Task, d: nat)
    requires Counted(s) && Accounted(s, t) && Enabled(s, step) && d < |s.tasks| && s.tasks[d] == t
    ensures var s' := Apply(s, step);
      && t in s'.pushed
      && (if Ahead(s, step) <= d then d - Ahead(s, step) < |s'.tasks| && s'.tasks[d - Ahead(s, step)] == t
          else t !in s'.tasks)
  {
    if Ahead(s, step) == 1 && d == 0 {
      TakenOnce(s.tasks);
    }
  }

  lemma TakenOnce(tasks: seq<Task>)
    requires tasks != [] && multiset(tasks)[tasks[0]] <= 1
    ensures tasks[0] !in tasks[1..]
  {
    var rest := tasks[1..];
    assert tasks == [tasks[0]] + rest;
    assert multiset(tasks) == multiset{tasks[0]} + multiset(rest);
  }

  /** What has left the list does not come back. */
  lemma StaysOut(s: Pool, step: Step, t: Task)
    requires Enabled(s, step) && t in s.pushed && t !in s.tasks
    ensures t in Apply(s, step).pushed && t !in Apply(s, step).tasks
  {
  }

  lemma {:induction false} StaysOutOverRuns(s: Pool, steps: seq<Step>, r: Pool, t: Task)
    requires Runs(s, steps, r) && t in s.pushed && t !in s.tasks
    ensures t !in r.tasks
    decreases |steps|
  {
    if steps == [] {
    } else {
      StaysOut(s, steps[0], t);
      StaysOutOverRuns(Apply(s, steps[0]), steps[1..], r, t);
    }
  }

  /** Last in, first out: a task with `d` others in front of it is still waiting after a run if and only if at no
      point of the run more than `d` more tasks had left the list than had come into it. */
  lemma WaitsIff(s: Pool, steps: seq<Step>, r: Pool, t: Task, d: nat)
    requires Inv(s) && Runs(s, steps, r) && d < |s.tasks| && s.tasks[d] == t
    ensures t in r.tasks <==> MostAhead(s, steps) <= d
  {
    WaitsUpTo(s, steps, r, t, d, MostAhead(s, steps));
  }

  lemma {:induction false} WaitsUpTo(s: Pool, steps: seq<Step>, r: Pool, t: Task, d: nat, most: int)
    requires Inv(s) && Runs(s, steps, r) && d < |s.tasks| && s.tasks[d] == t && most == MostAhead(s, steps)
    ensures t in r.tasks <==> most <= d
    decreases |steps|, 0
  {
    if steps == [] {
    } else {
      var s', a, most' := DepthAfterFirst(s, steps, r, t, d);
      WaitsFrom(s', steps[1..], r, t, d, a, most');
    }
  }

  lemma WaitsFrom(s: Pool, steps: seq<Step>, r: Pool, t: Task, d: nat, a: int, most: int)
    requires Inv(s) && Runs(s, steps, r) && t in s.pushed && most == MostAhead(s, steps) >= 0
    requires if a <= d then d - a < |s.tasks| && s.tasks[d - a] == t else t !in s.tasks
    ensures t in r.tasks <==> a + most <= d
    decreases |steps|, 1
  {
    if a <= d {
      WaitsUpTo(s, steps, r, t, d - a, most);
    } else {
      StaysOutOverRuns(s, steps, r, t);
    }
  }

  /** The first step of a run moves the task by `a` places, or takes it out. */
  lemma DepthAfterFirst(s: Pool, steps: seq<Step>, r: Pool, t: Task, d: nat) returns (s': Pool, a: int, most': int)
    requires Inv(s) && Runs(s, steps, r) && steps != [] && d < |s.tasks| && s.tasks[d] == t
    ensures Inv(s') && Runs(s', steps[1..], r) && t in s'.pushed
    ensures if a <= d then d - a < |s'.tasks| && s'.tasks[d - a] == t else t !in s'.tasks
    ensures most' == MostAhead(s', steps[1..]) >= 0 && (MostAhead(s, steps) <= d <==> a + most' <= d)
  {
    s' := Stepped(s, steps[0]);
    a, most' := Ahead(s, steps[0]), MostAhead(s', steps[1..]);
    assert Accounted(s, t);
    DepthAfter(s, steps[0], t, d);
  }

  predicate AllTop(ws: seq<Worker>) {
    ws != [] && forall i :: 0 <= i < |ws| ==> ws[i].Top?
  }

  /** Every worker at the head of its loop, and one task waiting. */
  ghost predicate OneWaits(s: Pool, t: Task, next: nat) {
    && AllTop(s.workers) && s.tasks == [t] && s.taskNums == 1 && !s.quit && s.owner.Running?
    && forall u :: u in s.pushed ==> u.id < next
  }

  lemma FirstWaits(threads: nat, t: Task) returns (steps: seq<Step>, s: Pool)
    requires threads > 0 && t.id == 0
    ensures Runs(Init(threads), steps, s) && OneWaits(s, t, 1) && |s.done| == 0 && |s.workers| == threads
  {
    var first := Init(threads);
    NobodyWoken(first.workers);
    s := Apply(first, Push(t, {}));
    steps := RunOn(first, [], first, Push(t, {}));
  }

  /** A newer task comes. */
  lemma NewerComes(first: Pool, before: seq<Step>, s: Pool, t: Task, u: Task) returns (steps: seq<Step>, s': Pool)
    requires Runs(first, before, s) && OneWaits(s, t, u.id)
    ensures Runs(first, steps, s')
    ensures s'.workers == s.workers && s'.tasks == [u, t] && s'.taskNums == 2 && !s'.quit && s'.owner.Running?
    ensures s'.pushed == s.pushed + multiset{u} && s'.done == s.done
  {
    NobodyWoken(s.workers);
    s' := Apply(s, Push(u, {}));
    steps := RunOn(first, before, s, Push(u, {}));
  }

  /** And goes: any worker takes it, and comes back for the next. */
  lemma NewerGoesFirst(first: Pool, before: seq<Step>, s: Pool, t: Task, next: nat, w: nat)
    returns (steps: seq<Step>, s': Pool)
    requires Runs(first, before, s) && OneWaits(s, t, next) && w < |s.workers|
    ensures Runs(first, steps, s') && OneWaits(s', t, next + 1) && |s'.done| == |s.done| + 1
    ensures |s'.workers| == |s.workers|
  {
    var u := Task(next, false);
    var s1;
    steps, s1 := NewerComes(first, before, s, t, u);
    var s2 := Apply(s1, Loop(w));
    steps := RunOn(first, steps, s1, Loop(w));
    assert s2.workers == s.workers[w := Calling(u)] && s2.tasks == [t];
    s' := Apply(s2, CallReturns(w));
    steps := RunOn(first, steps, s2, CallReturns(w));
    assert s'.workers == s.workers;
  }

  /** A task can wait while any number of newer ones are pushed, run and freed, by whichever workers. */
  lemma {:induction false} CanStarve(threads: nat, t: Task, takers: seq<nat>) returns (steps: seq<Step>, s: Pool)
    requires threads > 0 && t.id == 0 && forall i :: 0 <= i < |takers| ==> takers[i] < threads
    ensures Runs(Init(threads), steps, s) && OneWaits(s, t, |takers| + 1)
    ensures |s.done| == |takers| && |s.workers| == threads
    decreases |takers|
  {
    if takers == [] {
      steps, s := FirstWaits(threads, t);
    } else {
      var n := |takers| - 1;
      steps, s := CanStarve(threads, t, takers[..n]);
      steps, s := NewerGoesFirst(Init(threads), steps, s, t, n + 1, takers[n]);
    }
  }
}
