/**
 jk_aio.c as a transition system on top of PoolProtocol. A step is one critical section under aio.lock, a step of
 the pool, a read of the pipe, or a change of what a consumer does. A worker that has queued a finished request
 holds the lock until it has written its notice. Submitting threads and consumers are as many as there like to be.
 */
module AioProtocol {
  import P = PoolProtocol

  const JK_AIO_WORKER_THREADS := 15

  /** A call of the library that has returned: jk_aio_wait with its result, or jk_aio_poll. */
  datatype Call = Waited(ret: int) | Polled

  /** `log` are the calls that the consumer has made. Working: outside the library. Drain: has read `count` bytes. */
  datatype Consumer =
    | Working(log: seq<Call>)
    | Select(log: seq<Call>)
    | Drain(log: seq<Call>, count: nat)
    | Poll(log: seq<Call>, count: nat)
    | Callback(log: seq<Call>, count: nat, req: nat)

  /** Who holds aio.lock between two steps. */
  datatype Writer = NoWriter | Writer(w: nat)

  /** `seen` are all requests ever submitted, `hooked` those with a finish callback, `rejected` those whose push failed.
      `enqueued`, `dequeued` and `called` list what has come into the queue, gone out, and had its callback return. */
  datatype Aio = Aio(
    pool: P.Pool, nreqs: int, ncoms: int, completed: seq<nat>, pipe: nat, cap: nat, writer: Writer,
    consumers: seq<Consumer>, submitting: set<nat>, rejected: set<nat>, seen: set<nat>, hooked: set<nat>,
    enqueued: seq<nat>, dequeued: seq<nat>, called: seq<nat>, reports: seq<nat>)

  datatype Step =
    | Submit(r: nat)
    | Pushed(r: nat, wake: set<nat>)
    | PushFailed(r: nat)
    | Worker(step: P.Step)
    | Enqueue(w: nat)
    | Write(w: nat)
    | StartWait(c: nat)
    | SelectReady(c: nat)
    | SelectReturns(c: nat, failed: bool)
    | ReadOne(c: nat)
    | ReadStops(c: nat)
    | StartPoll(c: nat)
    | PollOnce(c: nat)
    | CallbackReturns(c: nat)

  function Init(threads: nat, consumers: nat, cap: nat, hooked: set<nat>): Aio {
    Aio(P.Init(threads), 0, 0, [], 0, cap, NoWriter, seq(consumers, _ => Working([])), {}, {}, {}, hooked,
        [], [], [], [])
  }

  /** The pool task of a request: jk_aio_execute with jk_aio_fininsh. */
  function TaskOf(r: nat): P.Task {
    P.Task(r, true)
  }

  predicate Enabled(s: Aio, step: Step) {
    match step
    case Submit(r) => s.writer.NoWriter? && r !in s.seen
    case Pushed(r, wake) => r in s.submitting && P.Enabled(s.pool, P.Push(TaskOf(r), wake))
    case PushFailed(r) => s.writer.NoWriter? && r in s.submitting
    case Worker(step) => (step.Loop? || step.Spurious? || step.CallReturns?) && P.Enabled(s.pool, step)
    case Enqueue(w) => s.writer.NoWriter? && w < |s.pool.workers| && s.pool.workers[w].Finishing?
    case Write(w) => s.writer == Writer(w) && P.Enabled(s.pool, P.FinishReturns(w))
    case StartWait(c) => c < |s.consumers| && s.consumers[c].Working?
    case SelectReady(c) => c < |s.consumers| && s.consumers[c].Select? && s.pipe > 0
    case SelectReturns(c, _) => c < |s.consumers| && s.consumers[c].Select?
    case ReadOne(c) => c < |s.consumers| && s.consumers[c].Drain? && s.pipe > 0
    case ReadStops(c) => c < |s.consumers| && s.consumers[c].Drain?
    case StartPoll(c) => c < |s.consumers| && s.consumers[c].Working?
    case PollOnce(c) => c < |s.consumers| && s.consumers[c].Poll? && s.writer.NoWriter?
    case CallbackReturns(c) => c < |s.consumers| && s.consumers[c].Callback?
  }

  function Turn(s: Aio, c: nat, x: Consumer): Aio
    requires c < |s.consumers|
  {
    s.(consumers := s.consumers[c := x])
  }

  function Apply(s: Aio, step: Step): Aio
    requires Enabled(s, step)
  {
    match step
    case Submit(r) => s.(nreqs := s.nreqs + 1, submitting := s.submitting + {r}, seen := s.seen + {r})
    case Pushed(r, wake) =>
      s.(pool := P.Apply(s.pool, P.Push(TaskOf(r), wake)), submitting := s.submitting - {r})
    case PushFailed(r) =>
      s.(nreqs := s.nreqs - 1, submitting := s.submitting - {r}, rejected := s.rejected + {r})
    case Worker(step) => s.(pool := P.Apply(s.pool, step))
    case Enqueue(w) =>
      var r := s.pool.workers[w].task.id;
      s.(completed := s.completed + [r], enqueued := s.enqueued + [r], writer := Writer(w))
    case Write(w) =>
      s.(pipe := if s.pipe < s.cap then s.pipe + 1 else s.pipe, writer := NoWriter,
         pool := P.Apply(s.pool, P.FinishReturns(w)))
    case StartWait(c) => Turn(s, c, Select(s.consumers[c].log))
    case SelectReady(c) => Turn(s, c, Drain(s.consumers[c].log, 0))
    case SelectReturns(c, failed) => Turn(s, c, Working(s.consumers[c].log + [Waited(if failed then -1 else 0)]))
    case ReadOne(c) => Turn(s, c, Drain(s.consumers[c].log, s.consumers[c].count + 1)).(pipe := s.pipe - 1)
    case ReadStops(c) => Turn(s, c, Working(s.consumers[c].log + [Waited(s.consumers[c].count)]))
    case StartPoll(c) => Turn(s, c, Poll(s.consumers[c].log, 0))
    case PollOnce(c) =>
      if s.completed == [] then
        Turn(s, c, Working(s.consumers[c].log + [Polled])).(reports := s.reports + [s.consumers[c].count])
      else
        Turn(s, c, Callback(s.consumers[c].log, s.consumers[c].count, s.completed[0])).(
          completed := s.completed[1..], ncoms := s.ncoms + 1, dequeued := s.dequeued + [s.completed[0]])
    case CallbackReturns(c) =>
      var r := s.consumers[c].req;
      Turn(s, c, Poll(s.consumers[c].log, s.consumers[c].count + 1)).(
        called := if r in s.hooked then s.called + [r] else s.called)
  }

  ghost predicate Runs(s: Aio, steps: seq<Step>, r: Aio)
    decreases |steps|
  {
    if steps == [] then r == s else Enabled(s, steps[0]) && Runs(Apply(s, steps[0]), steps[1..], r)
  }

  // ---------- Invariants ----------

  function Bit(b: bool): nat {
    if b then 1 else 0
  }

  /** The worker that is about to write its notice has this request. */
  function Writing(s: Aio, r: nat): nat {
    Bit(s.writer.Writer? && s.writer.w < |s.pool.workers| && s.pool.workers[s.writer.w] == P.Finishing(TaskOf(r)))
  }

  ghost predicate PoolOk(s: Aio) {
    P.Inv(s.pool) && s.pool.owner.Running? && forall t :: t in s.pool.pushed ==> t.finish
  }

  predicate WriterOk(s: Aio) {
    s.writer.Writer? ==>
      && s.writer.w < |s.pool.workers| && s.pool.workers[s.writer.w].Finishing?
      && s.completed != [] && s.completed[|s.completed| - 1] == s.pool.workers[s.writer.w].task.id
  }

  /** Where a request is, in terms of what has been pushed and what the pool has done. */
  ghost predicate Located(s: Aio, r: nat) {
    && Bit(r in s.seen) == Bit(r in s.submitting) + s.pool.pushed[TaskOf(r)] + Bit(r in s.rejected)
    && multiset(s.enqueued)[r] == s.pool.done[TaskOf(r)] + Writing(s, r)
  }

  predicate Counted(s: Aio) {
    && s.nreqs == |s.submitting| + |s.pool.pushed| && s.ncoms == |s.dequeued|
    && |s.enqueued| == |s.pool.done| + Bit(s.writer.Writer?)
  }

  /** The queue is first in, first out. */
  predicate Fifo(s: Aio) {
    s.enqueued == s.dequeued + s.completed
  }

  /** How many consumers are in the callback of a request. */
  function InCallback(cs: seq<Consumer>, r: nat): nat {
    if cs == [] then 0 else InCallback(cs[..|cs| - 1], r) + Bit(IsCallback(cs[|cs| - 1], r))
  }

  predicate IsCallback(c: Consumer, r: nat) {
    c.Callback? && c.req == r
  }

  ghost predicate CalledOk(s: Aio, r: nat) {
    if r in s.hooked then multiset(s.called)[r] + InCallback(s.consumers, r) == multiset(s.dequeued)[r]
    else multiset(s.called)[r] == 0
  }

  ghost predicate Inv(s: Aio) {
    && PoolOk(s) && WriterOk(s) && Counted(s) && Fifo(s)
    && (forall r :: Located(s, r)) && (forall r :: CalledOk(s, r))
  }

  // ---------- Every step keeps the invariants ----------

  lemma InitInv(threads: nat, consumers: nat, cap: nat, hooked: set<nat>)
    ensures Inv(Init(threads, consumers, cap, hooked))
  {
    var s := Init(threads, consumers, cap, hooked);
    P.InitInv(threads);
    forall r
      ensures CalledOk(s, r)
    {
      NoneInCallback(s.consumers, r);
    }
    assert forall r :: Located(s, r);
  }

  lemma {:induction false} NoneInCallback(cs: seq<Consumer>, r: nat)
    ensures InCallback(cs, r) == 0 <==> forall i :: 0 <= i < |cs| ==> !IsCallback(cs[i], r)
  {
    if cs == [] {
    } else {
      NoneInCallback(cs[..|cs| - 1], r);
      assert forall i :: 0 <= i < |cs| - 1 ==> cs[..|cs| - 1][i] == cs[i];
    }
  }

  lemma {:induction false} InCallbackUpdate(cs: seq<Consumer>, r: nat, c: nat, x: Consumer)
    requires c < |cs|
    ensures InCallback(cs[c := x], r) + Bit(IsCallback(cs[c], r)) == InCallback(cs, r) + Bit(IsCallback(x, r))
  {
    var n := |cs| - 1;
    if c < n {
      InCallbackUpdate(cs[..n], r, c, x);
      assert cs[c := x][..n] == cs[..n][c := x];
    } else {
      assert cs[c := x][..n] == cs[..n];
    }
  }

  /** A task in a worker's hands is a request's. */
  lemma TaskHasFinish(s: Aio, w: nat)
    requires PoolOk(s) && w < |s.pool.workers| && (s.pool.workers[w].Calling? || s.pool.workers[w].Finishing?)
    ensures s.pool.workers[w].task == TaskOf(s.pool.workers[w].task.id)
  {
    var t := s.pool.workers[w].task;
    P.SumUpdate(s.pool.workers, P.Holding(t), w, P.Top);
    assert P.Accounted(s.pool, t);
    assert t in s.pool.pushed;
  }

  lemma PoolOkKept(s: Aio, step: Step)
    requires PoolOk(s) && Enabled(s, step)
    ensures PoolOk(Apply(s, step))
  {
    match step
    case Pushed(r, wake) => P.InvKept(s.pool, P.Push(TaskOf(r), wake));
    case Worker(step) => P.InvKept(s.pool, step);
    case Write(w) => P.InvKept(s.pool, P.FinishReturns(w));
    case _ =>
  }

  /** The worker with the lock stays where it is. */
  lemma WriterStays(s: Aio, step: Step)
    requires WriterOk(s) && Enabled(s, step) && s.writer.Writer? && !step.Write?
    ensures var s' := Apply(s, step);
      && s'.writer == s.writer && s.writer.w < |s'.pool.workers| && s.writer.w < |s.pool.workers|
      && s'.pool.workers[s.writer.w] == s.pool.workers[s.writer.w]
  {
    match step
    case Pushed(r, wake) => P.WokenAt(s.pool.workers, wake, s.writer.w);
    case _ =>
  }

  lemma WriterOkKept(s: Aio, step: Step)
    requires WriterOk(s) && Enabled(s, step)
    ensures WriterOk(Apply(s, step))
  {
    if s.writer.Writer? && !step.Write? {
      WriterStays(s, step);
    }
  }

  lemma WritingKept(s: Aio, step: Step, r: nat)
    requires WriterOk(s) && Enabled(s, step) && !step.Enqueue? && !step.Write?
    ensures Writing(Apply(s, step), r) == Writing(s, r)
  {
    if s.writer.Writer? {
      WriterStays(s, step);
    }
  }

  lemma LocatedKept(s: Aio, step: Step, r: nat)
    requires PoolOk(s) && WriterOk(s) && Located(s, r) && Enabled(s, step)
    ensures Located(Apply(s, step), r)
  {
    match step
    case Worker(_) => WorkerKeepsPlaces(s, step, r);
    case Enqueue(w) => FinishKeepsPlaces(s, step, w, r);
    case Write(w) => FinishKeepsPlaces(s, step, w, r);
    case _ => WritingKept(s, step, r);
  }

  lemma FinishKeepsPlaces(s: Aio, step: Step, w: nat, r: nat)
    requires PoolOk(s) && WriterOk(s) && Located(s, r) && Enabled(s, step) && (step == Enqueue(w) || step == Write(w))
    ensures Located(Apply(s, step), r)
  {
    TaskHasFinish(s, w);
  }

  lemma WorkerKeepsPlaces(s: Aio, step: Step, r: nat)
    requires PoolOk(s) && WriterOk(s) && Located(s, r) && Enabled(s, step) && step.Worker?
    ensures Located(Apply(s, step), r)
  {
    WritingKept(s, step, r);
    WorkerMovesNothing(s, step.step);
  }

  /** A worker's way to its finish function leaves what is pushed and done alone. */
  lemma WorkerMovesNothing(s: Aio, step: P.Step)
    requires PoolOk(s) && Enabled(s, Worker(step))
    ensures P.Apply(s.pool, step).pushed == s.pool.pushed && P.Apply(s.pool, step).done == s.pool.done
  {
    if step.CallReturns? {
      TaskHasFinish(s, step.w);
    }
  }

  lemma CountedKept(s: Aio, step: Step)
    requires PoolOk(s) && WriterOk(s) && Counted(s) && Enabled(s, step)
    requires step.Submit? ==> Located(s, step.r)
    ensures Counted(Apply(s, step))
  {
    match step
    case Worker(step) => WorkerMovesNothing(s, step);
    case _ =>
  }

  lemma FifoKept(s: Aio, step: Step)
    requires Fifo(s) && Enabled(s, step)
    ensures Fifo(Apply(s, step))
  {
    if step.PollOnce? && s.completed != [] {
      assert s.completed == [s.completed[0]] + s.completed[1..];
    }
  }

  predicate OfConsumer(step: Step) {
    step.StartWait? || step.SelectReady? || step.SelectReturns? || step.ReadOne? || step.ReadStops?
    || step.StartPoll? || step.PollOnce? || step.CallbackReturns?
  }

  lemma CalledKept(s: Aio, step: Step, r: nat)
    requires CalledOk(s, r) && Enabled(s, step)
    ensures CalledOk(Apply(s, step), r)
  {
    if step.CallbackReturns? {
      ReturnKept(s, step.c, r);
    } else if step.PollOnce? {
      PollKept(s, step.c, r);
    } else if OfConsumer(step) {
      InCallbackUpdate(s.consumers, r, step.c, Apply(s, step).consumers[step.c]);
    }
  }

  lemma PollKept(s: Aio, c: nat, r: nat)
    requires CalledOk(s, r) && Enabled(s, PollOnce(c))
    ensures CalledOk(Apply(s, PollOnce(c)), r)
  {
    var x := s.consumers[c];
    if s.completed == [] {
      InCallbackUpdate(s.consumers, r, c, Working(x.log + [Polled]));
    } else {
      InCallbackUpdate(s.consumers, r, c, Callback(x.log, x.count, s.completed[0]));
    }
  }

  lemma ReturnKept(s: Aio, c: nat, r: nat)
    requires CalledOk(s, r) && Enabled(s, CallbackReturns(c))
    ensures CalledOk(Apply(s, CallbackReturns(c)), r)
  {
    InCallbackUpdate(s.consumers, r, c, Poll(s.consumers[c].log, s.consumers[c].count + 1));
  }

  lemma InvKept(s: Aio, step: Step)
    requires Inv(s) && Enabled(s, step)
    ensures Inv(Apply(s, step))
  {
    PoolOkKept(s, step);
    WriterOkKept(s, step);
    assert step.Submit? ==> Located(s, step.r);
    CountedKept(s, step);
    FifoKept(s, step);
    forall r
      ensures Located(Apply(s, step), r)
    {
      assert Located(s, r);
      LocatedKept(s, step, r);
    }
    forall r
      ensures CalledOk(Apply(s, step), r)
    {
      assert CalledOk(s, r);
      CalledKept(s, step, r);
    }
  }

  lemma Stepped(s: Aio, step: Step) returns (s': Aio)
    requires Inv(s) && Enabled(s, step)
    ensures s' == Apply(s, step) && Inv(s')
  {
    s' := Apply(s, step);
    InvKept(s, step);
  }

  lemma PollStepped(s: Aio, c: nat) returns (s': Aio)
    requires Inv(s) && Enabled(s, PollOnce(c))
    ensures s' == Apply(s, PollOnce(c)) && Inv(s') && s'.nreqs == s.nreqs && c < |s'.consumers|
    ensures s.completed == [] ==> s'.completed == [] && s'.ncoms == s.ncoms && s'.consumers[c].Working?
    ensures s.completed != [] ==> s'.completed == s.completed[1..] && s'.ncoms == s.ncoms + 1
    ensures s.completed != [] ==> IsCallback(s'.consumers[c], s.completed[0])
  {
    s' := Stepped(s, PollOnce(c));
  }

  lemma {:induction false} InvOverRuns(s: Aio, steps: seq<Step>, r: Aio)
    requires Inv(s) && Runs(s, steps, r)
    ensures Inv(r)
    decreases |steps|
  {
    if steps == [] {
    } else {
      InvKept(s, steps[0]);
      InvOverRuns(Apply(s, steps[0]), steps[1..], r);
    }
  }

  // ---------- What users get ----------

  /** How often a request is being submitted, waits in the pool's list, is in a worker, waits to be polled,
      has been polled, and has been rejected. */
  ghost function Places(s: Aio, r: nat): int {
    Bit(r in s.submitting) + multiset(s.pool.tasks)[TaskOf(r)] + (P.Held(s.pool.workers, TaskOf(r)) - Writing(s, r))
    + multiset(s.completed)[r] + multiset(s.dequeued)[r] + Bit(r in s.rejected)
  }

  /** Every request that has been submitted is in exactly one of these places. */
  lemma OnePlaceEach(threads: nat, consumers: nat, cap: nat, hooked: set<nat>, steps: seq<Step>, s: Aio)
    requires Runs(Init(threads, consumers, cap, hooked), steps, s)
    ensures forall r :: Places(s, r) == Bit(r in s.seen)
    ensures forall r :: P.Held(s.pool.workers, TaskOf(r)) >= Writing(s, r)
  {
    InitInv(threads, consumers, cap, hooked);
    InvOverRuns(Init(threads, consumers, cap, hooked), steps, s);
    forall r
      ensures Places(s, r) == Bit(r in s.seen) && P.Held(s.pool.workers, TaskOf(r)) >= Writing(s, r)
    {
      assert Located(s, r) && P.Accounted(s.pool, TaskOf(r));
      if Writing(s, r) == 1 {
        P.SumUpdate(s.pool.workers, P.Holding(TaskOf(r)), s.writer.w, P.Top);
      }
    }
  }

  /** A submitting thread can always push its request, or report that the push has failed and take its count back. */
  lemma SubmitGoesOn(s: Aio, r: nat, wake: set<nat>)
    requires Inv(s) && r in s.submitting && P.Signals(s.pool.workers, wake)
    ensures Enabled(s, Pushed(r, wake))
    ensures s.writer.NoWriter? ==> Enabled(s, PushFailed(r)) && Apply(s, PushFailed(r)).nreqs == s.nreqs - 1
  {
    assert Located(s, r);
  }

  /** A request that a worker is about to queue is not in the queue. */
  lemma NotYetQueued(s: Aio, w: nat)
    requires Inv(s) && Enabled(s, Enqueue(w))
    ensures s.pool.workers[w].task.id !in s.completed
  {
    var r := s.pool.workers[w].task.id;
    TaskHasFinish(s, w);
    P.SumUpdate(s.pool.workers, P.Holding(TaskOf(r)), w, P.Top);
    assert P.Accounted(s.pool, TaskOf(r)) && Located(s, r);
    assert multiset(s.enqueued) == multiset(s.dequeued) + multiset(s.completed);
  }

  /** jk_aio_nreqs counts exactly the requests that are not yet polled, and is never negative. */
  lemma PendingIsExact(threads: nat, consumers: nat, cap: nat, hooked: set<nat>, steps: seq<Step>, s: Aio)
    requires Runs(Init(threads, consumers, cap, hooked), steps, s)
    ensures var inWorkers := P.Busy(s.pool.workers) - Bit(s.writer.Writer?);
      && inWorkers >= 0
      && s.nreqs - s.ncoms == |s.submitting| + |s.pool.tasks| + inWorkers + |s.completed|
  {
    InitInv(threads, consumers, cap, hooked);
    InvOverRuns(Init(threads, consumers, cap, hooked), steps, s);
    if s.writer.Writer? {
      P.SumUpdate(s.pool.workers, P.WithTask(), s.writer.w, P.Top);
    }
  }

  predicate NotInCallback(s: Aio, r: nat) {
    forall i :: 0 <= i < |s.consumers| ==> !IsCallback(s.consumers[i], r)
  }

  /** A finish callback runs at most once; once the request is polled and no consumer is still in its callback it has
      run exactly once; and without a callback none runs. */
  lemma CallbackOnce(threads: nat, consumers: nat, cap: nat, hooked: set<nat>, steps: seq<Step>, s: Aio, r: nat)
    requires Runs(Init(threads, consumers, cap, hooked), steps, s)
    ensures multiset(s.called)[r] <= 1
    ensures r in s.called ==> r in s.hooked && r in s.dequeued
    ensures r in s.hooked && r in s.dequeued && NotInCallback(s, r) ==> multiset(s.called)[r] == 1
  {
    InitInv(threads, consumers, cap, hooked);
    InvOverRuns(Init(threads, consumers, cap, hooked), steps, s);
    OnePlaceEach(threads, consumers, cap, hooked, steps, s);
    assert Places(s, r) == Bit(r in s.seen) && P.Held(s.pool.workers, TaskOf(r)) >= Writing(s, r);
    assert CalledOk(s, r);
    NoneInCallback(s.consumers, r);
    assert r in s.called <==> multiset(s.called)[r] > 0;
    assert r in s.dequeued <==> multiset(s.dequeued)[r] > 0;
  }

  // ---------- One consumer: order ----------

  /** The requests with a callback, in order. */
  function Hooks(q: seq<nat>, hooked: set<nat>): seq<nat> {
    if q == [] then []
    else Hooks(q[..|q| - 1], hooked) + if q[|q| - 1] in hooked then [q[|q| - 1]] else []
  }

  predicate InOrder(s: Aio) {
    |s.consumers| == 1 &&
    match s.consumers[0]
    case Callback(_, _, r) =>
      && s.dequeued != [] && s.dequeued[|s.dequeued| - 1] == r
      && s.called == Hooks(s.dequeued[..|s.dequeued| - 1], s.hooked)
    case _ => s.called == Hooks(s.dequeued, s.hooked)
  }

  lemma InOrderKept(s: Aio, step: Step)
    requires InOrder(s) && Enabled(s, step)
    ensures InOrder(Apply(s, step))
  {
    var s' := Apply(s, step);
    match step
    case PollOnce(c) =>
      if s.completed != [] {
        assert s'.dequeued[..|s'.dequeued| - 1] == s.dequeued;
      }
    case _ =>
  }

  lemma {:induction false} InOrderOverRuns(s: Aio, steps: seq<Step>, r: Aio)
    requires InOrder(s) && Runs(s, steps, r)
    ensures InOrder(r) && r.hooked == s.hooked
    decreases |steps|
  {
    if steps == [] {
    } else {
      InOrderKept(s, steps[0]);
      InOrderOverRuns(Apply(s, steps[0]), steps[1..], r);
    }
  }

  lemma {:induction false} HooksAppend(a: seq<nat>, b: seq<nat>, hooked: set<nat>)
    ensures Hooks(a + b, hooked) == Hooks(a, hooked) + Hooks(b, hooked)
    decreases |b|
  {
    if b == [] {
      assert a + b == a;
    } else {
      var n := |b| - 1;
      HooksAppend(a, b[..n], hooked);
      assert (a + b)[..|a + b| - 1] == a + b[..n];
    }
  }

  /** With one consumer the callbacks run in the order in which the requests were queued, and none is left out
      once the queue is empty and the consumer is back from its callback. */
  lemma CallbacksInOrder(threads: nat, cap: nat, hooked: set<nat>, steps: seq<Step>, s: Aio)
    requires Runs(Init(threads, 1, cap, hooked), steps, s)
    ensures s.called <= Hooks(s.enqueued, hooked)
    ensures |s.consumers| == 1
    ensures s.completed == [] && !s.consumers[0].Callback? ==> s.called == Hooks(s.enqueued, hooked)
  {
    InitInv(threads, 1, cap, hooked);
    InvOverRuns(Init(threads, 1, cap, hooked), steps, s);
    InOrderOverRuns(Init(threads, 1, cap, hooked), steps, s);
    HooksAppend(s.dequeued, s.completed, hooked);
    if s.completed == [] {
      assert s.enqueued == s.dequeued;
    }
  }

  // ---------- What the calls report ----------

  /** The bytes that the waits in a log have reported. */
  function ReportedBy(log: seq<Call>): nat {
    if log == [] then 0
    else
      var n := |log| - 1;
      ReportedBy(log[..n]) + if log[n].Waited? && log[n].ret > 0 then log[n].ret else 0
  }

  /** The bytes that a consumer has read. */
  function BytesOf(c: Consumer): nat {
    ReportedBy(c.log) + if c.Drain? then c.count else 0
  }

  /** The requests that a consumer has taken and not yet reported. */
  function TakenBy(c: Consumer): nat {
    match c
    case Poll(_, count) => count
    case Callback(_, count, _) => count + 1
    case _ => 0
  }

  function Total(cs: seq<Consumer>, f: Consumer -> nat): nat {
    if cs == [] then 0 else Total(cs[..|cs| - 1], f) + f(cs[|cs| - 1])
  }

  lemma {:induction false} TotalUpdate(cs: seq<Consumer>, f: Consumer -> nat, c: nat, x: Consumer)
    requires c < |cs|
    ensures Total(cs[c := x], f) + f(cs[c]) == Total(cs, f) + f(x)
  {
    var n := |cs| - 1;
    if c < n {
      TotalUpdate(cs[..n], f, c, x);
      assert cs[c := x][..n] == cs[..n][c := x];
    } else {
      assert cs[c := x][..n] == cs[..n];
    }
  }

  lemma {:induction false} TotalOfNone(cs: seq<Consumer>, f: Consumer -> nat)
    requires forall i :: 0 <= i < |cs| ==> f(cs[i]) == 0
    ensures Total(cs, f) == 0
  {
    if cs == [] {
    } else {
      TotalOfNone(cs[..|cs| - 1], f);
    }
  }

  function SumOf(s: seq<nat>): nat {
    if s == [] then 0 else SumOf(s[..|s| - 1]) + s[|s| - 1]
  }

  /** Of the notices, one for each request queued, some have been read, some are in the pipe, and one may be about to
      be written. The others have been dropped: none, if the pipe has room for all. */
  predicate NoticesOk(s: Aio) {
    var sum := Total(s.consumers, BytesOf) + s.pipe + Bit(s.writer.Writer?);
    s.pipe <= s.cap && sum <= |s.enqueued| && (|s.enqueued| <= s.cap ==> sum == |s.enqueued|)
  }

  /** The requests taken out of the queue have been reported by a poll that has returned, or will be. */
  predicate ReportsOk(s: Aio) {
    SumOf(s.reports) + Total(s.consumers, TakenBy) == |s.dequeued|
  }

  lemma NoticesKept(s: Aio, step: Step)
    requires NoticesOk(s) && Enabled(s, step)
    ensures NoticesOk(Apply(s, step))
  {
    if EndsCall(step) {
      EndReports(s, step);
    } else if OfConsumer(step) {
      TotalUpdate(s.consumers, BytesOf, step.c, Apply(s, step).consumers[step.c]);
    }
  }

  lemma EndReports(s: Aio, step: Step)
    requires NoticesOk(s) && Enabled(s, step) && EndsCall(step)
    ensures NoticesOk(Apply(s, step))
  {
    var log := s.consumers[step.c].log;
    match step
    case SelectReturns(c, failed) => OneMoreReport(s.consumers, c, log, Waited(if failed then -1 else 0));
    case ReadStops(c) => OneMoreReport(s.consumers, c, log, Waited(s.consumers[c].count));
    case PollOnce(c) =>
      if s.completed == [] {
        OneMoreReport(s.consumers, c, log, Polled);
      } else {
        TotalUpdate(s.consumers, BytesOf, c, Callback(log, s.consumers[c].count, s.completed[0]));
      }
  }

  /** A consumer's call returns. */
  lemma OneMoreReport(cs: seq<Consumer>, c: nat, log: seq<Call>, call: Call)
    requires c < |cs|
    ensures Total(cs[c := Working(log + [call])], BytesOf) + BytesOf(cs[c]) ==
            Total(cs, BytesOf) + ReportedBy(log) + if call.Waited? && call.ret > 0 then call.ret else 0
  {
    assert (log + [call])[..|log|] == log;
    TotalUpdate(cs, BytesOf, c, Working(log + [call]));
  }

  lemma ReportsKept(s: Aio, step: Step)
    requires ReportsOk(s) && Enabled(s, step)
    ensures ReportsOk(Apply(s, step))
  {
    if step.PollOnce? {
      PollReports(s, step.c);
    } else if OfConsumer(step) {
      TotalUpdate(s.consumers, TakenBy, step.c, Apply(s, step).consumers[step.c]);
    }
  }

  lemma SumOfMore(s: seq<nat>, x: nat)
    ensures SumOf(s + [x]) == SumOf(s) + x
  {
    assert (s + [x])[..|s|] == s;
  }

  lemma PollReports(s: Aio, c: nat)
    requires ReportsOk(s) && Enabled(s, PollOnce(c))
    ensures ReportsOk(Apply(s, PollOnce(c)))
  {
    var x := s.consumers[c];
    if s.completed == [] {
      SumOfMore(s.reports, x.count);
      TotalUpdate(s.consumers, TakenBy, c, Working(x.log + [Polled]));
    } else {
      TotalUpdate(s.consumers, TakenBy, c, Callback(x.log, x.count, s.completed[0]));
    }
  }

  lemma {:induction false} ReportsOverRuns(s: Aio, steps: seq<Step>, r: Aio)
    requires NoticesOk(s) && ReportsOk(s) && Runs(s, steps, r)
    ensures NoticesOk(r) && ReportsOk(r) && r.cap == s.cap
    decreases |steps|
  {
    if steps == [] {
    } else {
      NoticesKept(s, steps[0]);
      ReportsKept(s, steps[0]);
      ReportsOverRuns(Apply(s, steps[0]), steps[1..], r);
    }
  }

  /** In every reachable state: the bytes that the waits have read and those in the pipe are the notices written, but
      for those that found the pipe full, of which there are none up to its capacity; and the polls have reported
      just the requests that they have taken. */
  lemma ReportsAddUp(threads: nat, consumers: nat, cap: nat, hooked: set<nat>, steps: seq<Step>, s: Aio)
    requires Runs(Init(threads, consumers, cap, hooked), steps, s)
    ensures var sum := Total(s.consumers, BytesOf) + s.pipe + Bit(s.writer.Writer?);
      s.pipe <= cap && sum <= |s.enqueued| && (|s.enqueued| <= cap ==> sum == |s.enqueued|)
    ensures SumOf(s.reports) + Total(s.consumers, TakenBy) == |s.dequeued|
  {
    var first := Init(threads, consumers, cap, hooked);
    TotalOfNone(first.consumers, BytesOf);
    TotalOfNone(first.consumers, TakenBy);
    ReportsOverRuns(first, steps, s);
  }

  // ---------- Progress ----------

  /** What a worker has still to do for the request in its hands. */
  function Effort(w: P.Worker): nat {
    match w
    case Calling(_) => 4
    case Finishing(_) => 3
    case _ => 0
  }

  /** The steps left until every request is polled. */
  function Work(s: Aio): int {
    6 * |s.submitting| + 5 * |s.pool.tasks| + P.Sum(s.pool.workers, Effort) - 2 * Bit(s.writer.Writer?) + |s.completed|
  }

  /** A step that brings a request further. */
  predicate Productive(s: Aio, step: Step) {
    match step
    case Pushed(_, _) => true
    case PushFailed(_) => true
    case Worker(step) => step.CallReturns? || (step.Loop? && !s.pool.quit && s.pool.taskNums > 0)
    case Enqueue(_) => true
    case Write(_) => true
    case PollOnce(_) => s.completed != []
    case _ => false
  }

  lemma WorkStep(s: Aio, step: Step)
    requires PoolOk(s) && WriterOk(s) && Enabled(s, step) && !step.Submit?
    ensures Work(Apply(s, step)) + Bit(Productive(s, step)) <= Work(s)
  {
    match step
    case Pushed(r, wake) => P.WokenSum(s.pool.workers, wake, Effort);
    case Worker(step) => WorkerWork(s, step);
    case Write(w) => P.SumUpdate(s.pool.workers, Effort, w, P.Top);
    case _ =>
  }

  lemma WorkerWork(s: Aio, step: P.Step)
    requires PoolOk(s) && Enabled(s, Worker(step))
    ensures Work(Apply(s, Worker(step))) + Bit(Productive(s, Worker(step))) <= Work(s)
  {
    if step.CallReturns? {
      TaskHasFinish(s, step.w);
    }
    P.SumUpdate(s.pool.workers, Effort, step.w, P.Apply(s.pool, step).workers[step.w]);
  }

  lemma {:induction false} EffortBounds(ws: seq<P.Worker>)
    ensures 3 * P.Busy(ws) <= P.Sum(ws, Effort) <= 4 * P.Busy(ws)
  {
    if ws == [] {
      assert P.Busy(ws) == 0;
    } else {
      EffortBounds(ws[..|ws| - 1]);
    }
  }

  /** No work is left exactly when no request is pending. */
  lemma WorkIsPending(s: Aio)
    requires PoolOk(s) && WriterOk(s) && Counted(s) && Fifo(s)
    ensures Work(s) >= 0 && (Work(s) == 0 <==> s.nreqs - s.ncoms == 0)
  {
    EffortBounds(s.pool.workers);
    if s.writer.Writer? {
      P.SumUpdate(s.pool.workers, P.WithTask(), s.writer.w, P.Top);
    }
  }

  predicate NoSubmit(steps: seq<Step>) {
    forall i :: 0 <= i < |steps| ==> !steps[i].Submit?
  }

  ghost function ProductiveSteps(s: Aio, steps: seq<Step>): nat
    decreases |steps|
  {
    if steps == [] || !Enabled(s, steps[0]) then 0
    else Bit(Productive(s, steps[0])) + ProductiveSteps(Apply(s, steps[0]), steps[1..])
  }

  /** Once nothing more is submitted, at most Work(s) productive steps are left, however the threads interleave. */
  lemma {:induction false} ProgressIsBounded(s: Aio, steps: seq<Step>, r: Aio)
    requires Inv(s) && Runs(s, steps, r) && NoSubmit(steps)
    ensures Inv(r) && ProductiveSteps(s, steps) + Work(r) <= Work(s)
    decreases |steps|
  {
    if steps == [] {
    } else {
      WorkStep(s, steps[0]);
      InvKept(s, steps[0]);
      assert NoSubmit(steps[1..]);
      ProgressIsBounded(Apply(s, steps[0]), steps[1..], r);
    }
  }

  /** Each productive step of the run counts. */
  lemma {:induction false} ProductiveLast(s: Aio, steps: seq<Step>, r: Aio, step: Step)
    requires Runs(s, steps, r) && Enabled(r, step)
    ensures ProductiveSteps(s, steps + [step]) == ProductiveSteps(s, steps) + if Productive(r, step) then 1 else 0
    decreases |steps|
  {
    var more := steps + [step];
    if steps == [] {
      assert more[1..] == [];
    } else {
      assert more[1..] == steps[1..] + [step];
      ProductiveLast(Apply(s, steps[0]), steps[1..], r, step);
    }
  }

  /** While a request is pending a productive step is enabled, unless all that are pending wait for a consumer
      to poll. */
  lemma ProgressGoesOn(s: Aio)
    requires Inv(s) && s.nreqs - s.ncoms > 0 && s.pool.workers != []
    ensures (exists step :: Enabled(s, step) && Productive(s, step)) ||
            (|s.completed| == s.nreqs - s.ncoms && forall c :: 0 <= c < |s.consumers| ==> !s.consumers[c].Poll?)
  {
    if s.writer.Writer? {
      var step := Write(s.writer.w);
      assert Enabled(s, step) && Productive(s, step);
    } else if s.submitting != {} {
      SubmitCanGoOn(s);
    } else if P.Busy(s.pool.workers) > 0 {
      BusyCanGoOn(s);
    } else if s.pool.tasks != [] {
      ListCanGoOn(s);
    } else if c :| 0 <= c < |s.consumers| && s.consumers[c].Poll? {
      var step := PollOnce(c);
      assert Enabled(s, step) && Productive(s, step);
    }
  }

  lemma SubmitCanGoOn(s: Aio)
    requires Inv(s) && s.submitting != {}
    ensures exists step :: Enabled(s, step) && Productive(s, step)
  {
    var r :| r in s.submitting;
    var wake := set i | 0 <= i < |s.pool.workers| && s.pool.workers[i].Asleep?;
    if P.SomeAsleep(s.pool.workers) {
      var i :| 0 <= i < |s.pool.workers| && s.pool.workers[i].Asleep?;
      assert i in wake;
    }
    SubmitGoesOn(s, r, wake);
    var step := Pushed(r, wake);
    assert Enabled(s, step) && Productive(s, step);
  }

  lemma BusyCanGoOn(s: Aio)
    requires s.writer.NoWriter? && P.Busy(s.pool.workers) > 0
    ensures exists step :: Enabled(s, step) && Productive(s, step)
  {
    P.ZeroSum(s.pool.workers, P.WithTask());
    var w :| 0 <= w < |s.pool.workers| && P.WithTask()(s.pool.workers[w]) != 0;
    var step := if s.pool.workers[w].Calling? then Worker(P.CallReturns(w)) else Enqueue(w);
    assert Enabled(s, step) && Productive(s, step);
  }

  lemma ListCanGoOn(s: Aio)
    requires PoolOk(s) && s.pool.tasks != [] && s.pool.workers != [] && P.Busy(s.pool.workers) == 0
    ensures exists step :: Enabled(s, step) && Productive(s, step)
  {
    P.ZeroSum(s.pool.workers, P.WithTask());
    P.ZeroSum(s.pool.workers, P.AtTop());
    assert P.WithTask()(s.pool.workers[0]) == 0;
    assert exists w :: 0 <= w < |s.pool.workers| && s.pool.workers[w].Top? by {
      if s.pool.workers[0].Asleep? {
        assert P.SomeAsleep(s.pool.workers);
        var w :| 0 <= w < |s.pool.workers| && P.AtTop()(s.pool.workers[w]) != 0;
        assert s.pool.workers[w].Top?;
      } else {
        assert s.pool.workers[0].Top?;
      }
    }
    var w :| 0 <= w < |s.pool.workers| && s.pool.workers[w].Top?;
    var step := Worker(P.Loop(w));
    assert Enabled(s, step) && Productive(s, step);
  }

  // ---------- One consumer: no lost notice ----------

  /** Some wait since the last poll has read a notice. */
  predicate HasRead(log: seq<Call>) {
    log != [] && log[|log| - 1].Waited? && (log[|log| - 1].ret > 0 || HasRead(log[..|log| - 1]))
  }

  /** The same while the consumer is inside the library; a poll reads what there is to be noticed. */
  predicate Reading(c: Consumer) {
    match c
    case Working(log) => HasRead(log)
    case Select(log) => HasRead(log)
    case Drain(log, count) => count > 0 || HasRead(log)
    case _ => true
  }

  /** When a consumer with these calls behind it may wait. */
  type Rule = seq<Call> -> bool

  predicate Obeys(s: Aio, step: Step, rule: Rule)
    requires Enabled(s, step)
  {
    step.StartWait? ==> rule(s.consumers[step.c].log)
  }

  ghost predicate RunsObeying(s: Aio, steps: seq<Step>, r: Aio, rule: Rule)
    decreases |steps|
  {
    if steps == [] then r == s
    else Enabled(s, steps[0]) && Obeys(s, steps[0], rule) && RunsObeying(Apply(s, steps[0]), steps[1..], r, rule)
  }

  /** Blocked on an empty pipe while finished requests wait, and nobody is about to write. */
  predicate Lost(s: Aio) {
    |s.consumers| == 1 && s.consumers[0].Select? && s.pipe == 0 && s.completed != [] && s.writer.NoWriter?
  }

  /** Only a timeout or a failure of select can end that wait, until another request is queued. */
  lemma LostLasts(s: Aio, step: Step)
    requires Lost(s) && Enabled(s, step)
    ensures OfConsumer(step) ==> step.SelectReturns?
    ensures !step.SelectReturns? && !step.Enqueue? ==> Lost(Apply(s, step))
  {
  }

  /** With this many workers, this capacity of the pipe, and one consumer that follows the rule, no notice is lost in
      any run. */
  ghost predicate Safe(rule: Rule, threads: nat, cap: nat, hooked: set<nat>) {
    forall steps: seq<Step>, s: Aio :: RunsObeying(Init(threads, 1, cap, hooked), steps, s, rule) ==> !Lost(s)
  }

  /** Calls that a consumer can make under the rule. */
  ghost predicate Allowed(log: seq<Call>, rule: Rule) {
    forall i :: 0 <= i < |log| && log[i].Waited? ==> log[i].ret >= -1 && rule(log[..i])
  }

  /** Under the rule no wait follows a wait that has read something, unless a poll has come between. */
  ghost predicate PollsAfterReading(rule: Rule) {
    forall log :: Allowed(log, rule) && HasRead(log) ==> !rule(log)
  }

  /** There is a notice in the pipe, or one is about to be written, or there is nothing to notice. */
  predicate Noticed(s: Aio) {
    s.pipe > 0 || s.writer.Writer? || s.completed == []
  }

  ghost predicate NoticeKept(s: Aio, rule: Rule) {
    && |s.consumers| == 1 && s.cap > 0 && Allowed(s.consumers[0].log, rule)
    && (s.consumers[0].Select? || s.consumers[0].Drain? ==> !HasRead(s.consumers[0].log) && rule(s.consumers[0].log))
    && (!Reading(s.consumers[0]) ==> Noticed(s))
  }

  lemma AllowedMore(log: seq<Call>, rule: Rule, call: Call)
    requires Allowed(log, rule) && (call.Waited? ==> call.ret >= -1 && rule(log))
    ensures Allowed(log + [call], rule)
    ensures HasRead(log + [call]) <==> call.Waited? && (call.ret > 0 || HasRead(log))
  {
    var log' := log + [call];
    assert log'[..|log|] == log;
    forall i | 0 <= i < |log'| && log'[i].Waited?
      ensures log'[i].ret >= -1 && rule(log'[..i])
    {
      assert i < |log| ==> log'[..i] == log[..i];
    }
  }

  /** The steps with which a call of the library may end. */
  predicate EndsCall(step: Step) {
    step.SelectReturns? || step.ReadStops? || step.PollOnce?
  }

  lemma EndKeepsNotice(s: Aio, step: Step, rule: Rule)
    requires NoticeKept(s, rule) && Enabled(s, step) && EndsCall(step)
    ensures NoticeKept(Apply(s, step), rule)
  {
    match step
    case SelectReturns(c, failed) => AllowedMore(s.consumers[0].log, rule, Waited(if failed then -1 else 0));
    case ReadStops(c) => AllowedMore(s.consumers[0].log, rule, Waited(s.consumers[0].count));
    case PollOnce(c) => AllowedMore(s.consumers[0].log, rule, Polled);
  }

  lemma NoticeStep(s: Aio, step: Step, rule: Rule)
    requires PollsAfterReading(rule) && NoticeKept(s, rule) && Enabled(s, step) && Obeys(s, step, rule)
    ensures NoticeKept(Apply(s, step), rule)
  {
    if EndsCall(step) {
      EndKeepsNotice(s, step, rule);
    }
  }

  lemma {:induction false} NoticeOverRuns(s: Aio, steps: seq<Step>, r: Aio, rule: Rule)
    requires PollsAfterReading(rule) && NoticeKept(s, rule) && RunsObeying(s, steps, r, rule)
    ensures NoticeKept(r, rule)
    decreases |steps|
  {
    if steps == [] {
    } else {
      NoticeStep(s, steps[0], rule);
      NoticeOverRuns(Apply(s, steps[0]), steps[1..], r, rule);
    }
  }

  /** A single consumer that polls before it waits again after a wait that has read something is never blocked in
      select on an empty pipe while finished requests wait for it, but for the moment until a worker writes its
      notice; dropped writes to a full pipe, failed selects and failed reads included. */
  lemma NoLostNotice(rule: Rule, threads: nat, cap: nat, hooked: set<nat>)
    requires PollsAfterReading(rule) && cap > 0
    ensures Safe(rule, threads, cap, hooked)
  {
    forall steps: seq<Step>, s: Aio | RunsObeying(Init(threads, 1, cap, hooked), steps, s, rule)
      ensures !Lost(s)
    {
      NoticeOverRuns(Init(threads, 1, cap, hooked), steps, s, rule);
    }
  }

  /** The writer can always write, so that moment passes. */
  lemma WriterCanWrite(threads: nat, consumers: nat, cap: nat, hooked: set<nat>, steps: seq<Step>, s: Aio)
    requires Runs(Init(threads, consumers, cap, hooked), steps, s) && s.writer.Writer?
    ensures Enabled(s, Write(s.writer.w)) && Apply(s, Write(s.writer.w)).writer == NoWriter
    ensures s.cap > 0 ==> Apply(s, Write(s.writer.w)).pipe > 0
  {
    InitInv(threads, consumers, cap, hooked);
    InvOverRuns(Init(threads, consumers, cap, hooked), steps, s);
  }

  // ---------- A rule that lets the consumer wait too soon ----------

  lemma {:induction false} AndThen(s: Aio, steps: seq<Step>, m: Aio, step: Step, rule: Rule)
    returns (steps': seq<Step>, r: Aio)
    requires RunsObeying(s, steps, m, rule) && Enabled(m, step) && Obeys(m, step, rule)
    ensures r == Apply(m, step) && RunsObeying(s, steps', r, rule)
    ensures steps' == steps + [step]
    decreases |steps|
  {
    r := Apply(m, step);
    steps' := steps + [step];
    if steps == [] {
      assert RunsObeying(r, steps'[1..], r, rule);
    } else {
      var rest, _ := AndThen(Apply(s, steps[0]), steps[1..], m, step, rule);
      assert steps'[1..] == rest;
    }
  }

  /** No worker has anything to do, and requests from `next` on are new. */
  ghost predicate Idle(s: Aio, next: nat) {
    && P.AllTop(s.pool.workers) && s.pool.tasks == [] && s.pool.taskNums == 0 && !s.pool.quit
    && s.pool.owner.Running? && s.writer.NoWriter? && s.cap > 0 && |s.consumers| == 1
    && (forall r :: r in s.seen ==> r < next) && (forall t :: t in s.pool.pushed ==> t.id < next)
  }

  /** One request goes into the pool. */
  lemma RequestIn(first: Aio, before: seq<Step>, s: Aio, r: nat, rule: Rule) returns (steps: seq<Step>, s': Aio)
    requires RunsObeying(first, before, s, rule) && Idle(s, r)
    ensures RunsObeying(first, steps, s', rule)
    ensures s'.pool.workers == s.pool.workers && s'.pool.tasks == [TaskOf(r)] && s'.pool.taskNums == 1
    ensures !s'.pool.quit && s'.pool.owner.Running? && s'.writer.NoWriter? && s'.cap == s.cap
    ensures s'.consumers == s.consumers && s'.pipe == s.pipe && s'.completed == s.completed
    ensures s'.seen == s.seen + {r} && s'.pool.pushed == s.pool.pushed + multiset{TaskOf(r)}
  {
    steps, s' := AndThen(first, before, s, Submit(r), rule);
    P.NobodyWoken(s.pool.workers);
    steps, s' := AndThen(first, steps, s', Pushed(r, {}), rule);
  }

  /** The first worker has run it. */
  lemma RequestRun(first: Aio, before: seq<Step>, s: Aio, r: nat, rule: Rule) returns (steps: seq<Step>, s': Aio)
    requires RunsObeying(first, before, s, rule) && Idle(s, r)
    ensures RunsObeying(first, steps, s', rule)
    ensures s'.pool.workers == s.pool.workers[0 := P.Finishing(TaskOf(r))]
    ensures s'.pool.tasks == [] && s'.pool.taskNums == 0
    ensures !s'.pool.quit && s'.pool.owner.Running? && s'.writer.NoWriter? && s'.cap == s.cap
    ensures s'.consumers == s.consumers && s'.pipe == s.pipe && s'.completed == s.completed
    ensures s'.seen == s.seen + {r} && s'.pool.pushed == s.pool.pushed + multiset{TaskOf(r)}
  {
    steps, s' := RequestIn(first, before, s, r, rule);
    steps, s' := AndThen(first, steps, s', Worker(P.Loop(0)), rule);
    assert s'.pool.workers == s.pool.workers[0 := P.Calling(TaskOf(r))];
    steps, s' := AndThen(first, steps, s', Worker(P.CallReturns(0)), rule);
    assert s'.pool.workers == s.pool.workers[0 := P.Finishing(TaskOf(r))];
  }

  /** And it comes out, with a notice. */
  lemma RequestOut(first: Aio, before: seq<Step>, s: Aio, r: nat, rule: Rule) returns (steps: seq<Step>, s': Aio)
    requires RunsObeying(first, before, s, rule) && Idle(s, r) && s.pipe == 0
    ensures RunsObeying(first, steps, s', rule) && Idle(s', r + 1)
    ensures s'.consumers == s.consumers && s'.pipe == 1 && s'.completed == s.completed + [r]
  {
    steps, s' := RequestRun(first, before, s, r, rule);
    steps, s' := AndThen(first, steps, s', Enqueue(0), rule);
    steps, s' := AndThen(first, steps, s', Write(0), rule);
    assert s'.pool.workers == s.pool.workers;
  }

  /** Between two calls, with an empty pipe; what has been read and not polled is still in the queue. */
  ghost predicate Between(s: Aio, log: seq<Call>, next: nat) {
    Idle(s, next) && s.consumers == [Working(log)] && s.pipe == 0 && (HasRead(log) ==> s.completed != [])
  }

  /** A wait that reads `n` notices, each of a request that completes meanwhile. */
  lemma {:induction false} Reads(first: Aio, before: seq<Step>, s: Aio, next: nat, log: seq<Call>, n: nat, rule: Rule)
    returns (steps: seq<Step>, s': Aio, next': nat)
    requires RunsObeying(first, before, s, rule) && Idle(s, next) && s.consumers == [Drain(log, 0)] && s.pipe == 1
    requires n > 0 && s.completed != []
    ensures RunsObeying(first, steps, s', rule) && Idle(s', next') && s'.consumers == [Drain(log, n)] && s'.pipe == 0
    ensures s'.completed != []
  {
    if n == 1 {
      steps, s' := ReadsOne(first, before, s, next, log, 0, rule);
      next' := next;
    } else {
      steps, s', next' := Reads(first, before, s, next, log, n - 1, rule);
      steps, s' := RequestOut(first, steps, s', next', rule);
      next' := next' + 1;
      steps, s' := ReadsOne(first, steps, s', next', log, n - 1, rule);
    }
  }

  lemma ReadsOne(first: Aio, before: seq<Step>, s: Aio, next: nat, log: seq<Call>, n: nat, rule: Rule)
    returns (steps: seq<Step>, s': Aio)
    requires RunsObeying(first, before, s, rule) && Idle(s, next) && s.consumers == [Drain(log, n)] && s.pipe == 1
    ensures RunsObeying(first, steps, s', rule) && Idle(s', next) && s'.consumers == [Drain(log, n + 1)]
    ensures s'.pipe == 0 && s'.completed == s.completed
  {
    steps, s' := AndThen(first, before, s, ReadOne(0), rule);
  }

  lemma WaitReads(first: Aio, before: seq<Step>, s: Aio, next: nat, log: seq<Call>, n: nat, rule: Rule)
    returns (steps: seq<Step>, s': Aio, next': nat)
    requires RunsObeying(first, before, s, rule) && Between(s, log, next) && n > 0 && rule(log)
    ensures RunsObeying(first, steps, s', rule) && Between(s', log + [Waited(n)], next')
  {
    steps, s' := AndThen(first, before, s, StartWait(0), rule);
    steps, s' := RequestOut(first, steps, s', next, rule);
    steps, s' := AndThen(first, steps, s', SelectReady(0), rule);
    steps, s', next' := Reads(first, steps, s', next + 1, log, n, rule);
    steps, s' := AndThen(first, steps, s', ReadStops(0), rule);
  }

  lemma WaitReturns(first: Aio, before: seq<Step>, s: Aio, next: nat, log: seq<Call>, ret: int, rule: Rule)
    returns (steps: seq<Step>, s': Aio)
    requires RunsObeying(first, before, s, rule) && Between(s, log, next) && -1 <= ret <= 0 && rule(log)
    ensures RunsObeying(first, steps, s', rule) && Between(s', log + [Waited(ret)], next)
  {
    steps, s' := AndThen(first, before, s, StartWait(0), rule);
    steps, s' := AndThen(first, steps, s', SelectReturns(0, ret == -1), rule);
    assert (log + [Waited(ret)])[..|log|] == log;
  }

  /** A poll takes everything. */
  lemma {:induction false} PollsAll(first: Aio, before: seq<Step>, s: Aio, next: nat, log: seq<Call>, rule: Rule)
    returns (steps: seq<Step>, s': Aio)
    requires RunsObeying(first, before, s, rule) && Idle(s, next) && |s.consumers| == 1
    requires s.consumers[0].Poll? && s.consumers[0].log == log && s.pipe == 0
    ensures RunsObeying(first, steps, s', rule) && Between(s', log + [Polled], next)
    decreases |s.completed|
  {
    steps, s' := AndThen(first, before, s, PollOnce(0), rule);
    if s.completed == [] {
    } else {
      steps, s' := AndThen(first, steps, s', CallbackReturns(0), rule);
      steps, s' := PollsAll(first, steps, s', next, log, rule);
    }
  }

  /** Whatever calls the rule allows, there is a run in which the consumer makes them, with these results: with any
      number of workers, whatever the pipe holds, and whichever requests have callbacks. */
  lemma Realized(log: seq<Call>, rule: Rule, threads: nat, cap: nat, hooked: set<nat>)
    returns (steps: seq<Step>, s: Aio, next: nat)
    requires Allowed(log, rule) && threads > 0 && cap > 0
    ensures RunsObeying(Init(threads, 1, cap, hooked), steps, s, rule) && Between(s, log, next)
  {
    steps, s, next := RealizedFrom(Init(threads, 1, cap, hooked), log, rule);
  }

  lemma {:induction false} RealizedFrom(first: Aio, log: seq<Call>, rule: Rule)
    returns (steps: seq<Step>, s: Aio, next: nat)
    requires Allowed(log, rule) && Between(first, [], 0)
    ensures RunsObeying(first, steps, s, rule) && Between(s, log, next)
    decreases |log|
  {
    if log == [] {
      steps, s, next := [], first, 0;
    } else {
      var before, call := LastCall(log, rule);
      steps, s, next := RealizedFrom(first, before, rule);
      steps, s, next := OneMoreCall(first, steps, s, next, before, call, rule);
    }
  }

  lemma OneMoreCall(first: Aio, before: seq<Step>, s: Aio, next: nat, log: seq<Call>, call: Call, rule: Rule)
    returns (steps: seq<Step>, s': Aio, next': nat)
    requires RunsObeying(first, before, s, rule) && Between(s, log, next)
    requires call.Waited? ==> call.ret >= -1 && rule(log)
    ensures RunsObeying(first, steps, s', rule) && Between(s', log + [call], next')
  {
    next' := next;
    if call.Polled? {
      steps, s' := AndThen(first, before, s, StartPoll(0), rule);
      steps, s' := PollsAll(first, steps, s', next, log, rule);
    } else if call.ret > 0 {
      steps, s', next' := WaitReads(first, before, s, next, log, call.ret, rule);
    } else {
      steps, s' := WaitReturns(first, before, s, next, log, call.ret, rule);
    }
  }

  lemma LastCall(log: seq<Call>, rule: Rule) returns (before: seq<Call>, call: Call)
    requires Allowed(log, rule) && log != []
    ensures log == before + [call] && |before| < |log|
    ensures Allowed(before, rule) && (call.Waited? ==> call.ret >= -1 && rule(before))
  {
    var n := |log| - 1;
    before, call := log[..n], log[n];
    forall i | 0 <= i < n && before[i].Waited?
      ensures before[i].ret >= -1 && rule(before[..i])
    {
      assert before[..i] == log[..i];
    }
  }

  /** A rule that allows a wait after one that has read something loses a notice in some run. */
  lemma WaitingTooSoonLosesNotice(log: seq<Call>, rule: Rule, threads: nat, cap: nat, hooked: set<nat>)
    returns (steps: seq<Step>, s: Aio)
    requires Allowed(log, rule) && HasRead(log) && rule(log) && threads > 0 && cap > 0
    ensures RunsObeying(Init(threads, 1, cap, hooked), steps, s, rule) && Lost(s)
  {
    var next;
    steps, s, next := Realized(log, rule, threads, cap, hooked);
    steps, s := AndThen(Init(threads, 1, cap, hooked), steps, s, StartWait(0), rule);
  }

  /** With any number of workers and any pipe, a rule for waiting is safe over all runs if and only if it makes the
      consumer poll after a wait that has read something, before it waits again. */
  lemma SafeIff(rule: Rule, threads: nat, cap: nat, hooked: set<nat>)
    requires threads > 0 && cap > 0
    ensures Safe(rule, threads, cap, hooked) <==> PollsAfterReading(rule)
  {
    if PollsAfterReading(rule) {
      NoLostNotice(rule, threads, cap, hooked);
    } else {
      var log :| Allowed(log, rule) && HasRead(log) && rule(log);
      var steps, s := WaitingTooSoonLosesNotice(log, rule, threads, cap, hooked);
      assert Lost(s);
    }
  }

  /** So it is with the workers that jk_aio_init starts, and any pipe. */
  lemma SafeAsStarted(rule: Rule, cap: nat, hooked: set<nat>)
    requires cap > 0
    ensures Safe(rule, JK_AIO_WORKER_THREADS, cap, hooked) <==> PollsAfterReading(rule)
  {
    SafeIff(rule, JK_AIO_WORKER_THREADS, cap, hooked);
  }
}
