/**
 The fields of jk_thread_pool.c and the critical sections that change them, each proved to be one step of
 PoolProtocol: what holds in every reachable state there holds of these fields between critical sections.
 */
module ThreadPool {
  import opened PoolProtocol

  class TaskBlock {
    const task: Task
    var next: TaskBlock?

    constructor (task: Task, next: TaskBlock?)
      ensures this.task == task && this.next == next
    {
      this.task, this.next := task, next;
    }
  }

  /** The blocks from `head` on. */
  ghost predicate Listed(head: TaskBlock?, blocks: seq<TaskBlock>)
    reads blocks
    decreases |blocks|
  {
    if blocks == [] then head == null else head == blocks[0] && Listed(blocks[0].next, blocks[1..])
  }

  ghost function TasksOf(blocks: seq<TaskBlock>): seq<Task> {
    if blocks == [] then [] else [blocks[0].task] + TasksOf(blocks[1..])
  }

  /** What the critical section of the worker's loop decides. */
  datatype Action = Exit | Wait | Run(task: Task)

  class ThreadPool {
    var waitTasks: TaskBlock?
    var taskNums: int
    var quitFlag: bool
    ghost var s: Pool
    ghost var blocks: seq<TaskBlock>

    ghost predicate Valid()
      reads this, blocks
    {
      && Inv(s) && taskNums == s.taskNums && quitFlag == s.quit
      && Listed(waitTasks, blocks) && TasksOf(blocks) == s.tasks
    }

    /** jk_thread_pool_new, once its threads are up */
    constructor (threads: nat)
      ensures Valid() && s == Init(threads)
    {
      InitInv(threads);
      waitTasks, taskNums, quitFlag := null, 0, false;
      s, blocks := Init(threads), [];
    }

    /** jk_thread_pool_push; `wake` are the workers that the signal happens to wake. */
    method Push(task: Task, mallocOk: bool, ghost wake: set<nat>) returns (ret: int)
      requires Valid() && Enabled(s, Step.Push(task, wake))
      modifies this
      ensures Valid()
      ensures mallocOk ==> ret == 0 && s == Apply(old(s), Step.Push(task, wake))
      ensures !mallocOk ==> ret == -1 && s == old(s)
    {
      if !mallocOk {
        return -1;
      }
      var block := new TaskBlock(task, waitTasks);
      InvKept(s, Step.Push(task, wake));
      waitTasks := block;
      taskNums := taskNums + 1;
      s, blocks := Apply(s, Step.Push(task, wake)), [block] + blocks;
      assert blocks[1..] == old(blocks);
      return 0;
    }

    /** The critical section of jk_thread_loop, up to the unlock or the wait. */
    method Take(ghost w: nat) returns (action: Action)
      requires Valid() && Enabled(s, Loop(w))
      modifies this
      ensures Valid() && s == Apply(old(s), Loop(w))
      ensures w < |s.workers| &&
        match action
        case Exit => s.workers[w] == Exited
        case Wait => s.workers[w] == Asleep
        case Run(t) => s.workers[w] == Calling(t)
    {
      InvKept(s, Loop(w));
      if !quitFlag && taskNums <= 0 {
        s := Apply(s, Loop(w));
        return Wait;
      }
      if quitFlag {
        s := Apply(s, Loop(w));
        return Exit;
      }
      var block := Pop(w);
      return Run(block.task);
    }

    /** Takes the newest task off the list. */
    method Pop(ghost w: nat) returns (block: TaskBlock)
      requires Valid() && Enabled(s, Loop(w)) && !quitFlag && taskNums > 0
      modifies this
      ensures Valid() && s == Apply(old(s), Loop(w)) && s.workers[w] == Calling(block.task)
    {
      InvKept(s, Loop(w));
      block := waitTasks;
      waitTasks := block.next;
      taskNums := taskNums - 1;
      s, blocks := Apply(s, Loop(w)), blocks[1..];
    }

    /** The first critical section of jk_thread_pool_destroy. */
    method SetQuit()
      requires Valid() && Enabled(s, Quit)
      modifies this
      ensures Valid() && s == Apply(old(s), Quit)
    {
      InvKept(s, Quit);
      quitFlag := true;
      s := Apply(s, Quit);
    }

    /** The end of jk_thread_pool_destroy, after the joins: as many FreeOne steps as there are tasks, and DrainEnds. */
    method FreeRemaining() returns (freed: seq<TaskBlock>)
      requires Valid() && s.owner.Draining?
      modifies this
      ensures Valid() && s == Drained(old(s)) && s.owner.Destroyed?
      ensures freed == old(blocks) && waitTasks == null && taskNums == 0
    {
      ghost var first := s;
      freed := [];
      while waitTasks != null
        invariant Valid() && s.owner.Draining? && Drained(s) == Drained(first)
        invariant freed + blocks == old(blocks)
        decreases |blocks|
      {
        var block := FreeHead();
        freed := freed + [block];
      }
      End();
    }

    /** One turn of the freeing loop. */
    method FreeHead() returns (block: TaskBlock)
      requires Valid() && s.owner.Draining? && waitTasks != null
      modifies this
      ensures Valid() && s.owner.Draining? && Drained(s) == Drained(old(s)) && old(blocks) == [block] + blocks
    {
      ghost var s' := FreedOne(s);
      block := waitTasks;
      waitTasks := block.next;
      taskNums := taskNums - 1;
      s, blocks := s', blocks[1..];
    }

    method End()
      requires Valid() && s.owner.Draining? && waitTasks == null
      modifies this
      ensures Valid() && s == Drained(old(s))
      ensures waitTasks == null && taskNums == 0
    {
      InvKept(s, DrainEnds);
      s := Apply(s, DrainEnds);
    }
  }

  /** All that is left has been freed unrun. */
  ghost function Drained(s: Pool): Pool {
    s.(tasks := [], taskNums := 0, dropped := s.dropped + multiset(s.tasks), owner := Destroyed)
  }

  /** The protocol's step for one block. */
  lemma FreedOne(s: Pool) returns (s': Pool)
    requires Inv(s) && s.owner.Draining? && s.tasks != []
    ensures Inv(s') && s'.owner.Draining? && Drained(s') == Drained(s)
    ensures s'.tasks == s.tasks[1..] && s'.taskNums == s.taskNums - 1 && s'.quit == s.quit
  {
    s' := Apply(s, FreeOne);
    InvKept(s, FreeOne);
    FreeOneDrains(s);
  }

  lemma FreeOneDrains(s: Pool)
    requires Enabled(s, FreeOne)
    ensures Drained(Apply(s, FreeOne)) == Drained(s)
  {
    assert s.tasks == [s.tasks[0]] + s.tasks[1..];
  }

  /** Draining is a run of the protocol. */
  lemma {:induction false} DrainRuns(s: Pool) returns (steps: seq<Step>)
    requires s.owner.Draining? && s.taskNums == |s.tasks|
    ensures Runs(s, steps, Drained(s)) && |steps| == |s.tasks| + 1
    decreases |s.tasks|
  {
    if s.tasks == [] {
      steps := [DrainEnds];
      assert Runs(Apply(s, DrainEnds), steps[1..], Drained(s));
    } else {
      FreeOneDrains(s);
      var s' := Apply(s, FreeOne);
      var rest := DrainRuns(s');
      steps := [FreeOne] + rest;
      assert steps[1..] == rest;
    }
  }
}
