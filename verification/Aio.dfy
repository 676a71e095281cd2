/**
 The fields of jk_aio.c and the critical sections under aio.lock, each proved to be a step of AioProtocol. The
 queue of finished requests is the linked list from rhead to rtail.
 */
module Aio {
  import P = PoolProtocol
  import A = AioProtocol

  class Request {
    const id: nat
    var next: Request?

    constructor (id: nat)
      ensures this.id == id && next == null
    {
      this.id, this.next := id, null;
    }
  }

  /** The list of finished requests. */
  ghost predicate Queue(q: seq<Request>, head: Request?, tail: Request?)
    reads q
  {
    && head == (if q == [] then null else q[0])
    && tail == (if q == [] then null else q[|q| - 1])
    && (forall i, j :: 0 <= i < j < |q| ==> q[i] != q[j])
    && (forall i, j :: 0 <= i < j < |q| && j == i + 1 ==> q[i].next == q[j])
    && (q != [] ==> q[|q| - 1].next == null)
  }

  ghost predicate IdsAre(q: seq<Request>, ids: seq<nat>) {
    |q| == |ids| && forall i :: 0 <= i < |q| ==> q[i].id == ids[i]
  }

  class AioState {
    var rhead: Request?
    var rtail: Request?
    var nreqs: int
    var ncoms: int
    ghost var s: A.Aio
    ghost var queue: seq<Request>

    ghost predicate Valid()
      reads this, queue
    {
      && A.Inv(s) && nreqs == s.nreqs && ncoms == s.ncoms
      && Queue(queue, rhead, rtail) && IdsAre(queue, s.completed)
    }

    /** jk_aio_init */
    constructor (threads: nat, consumers: nat, cap: nat, ghost hooked: set<nat>)
      ensures Valid() && s == A.Init(threads, consumers, cap, hooked)
    {
      A.InitInv(threads, consumers, cap, hooked);
      rhead, rtail, nreqs, ncoms := null, null, 0, 0;
      s, queue := A.Init(threads, consumers, cap, hooked), [];
    }

    /** The first critical section of jk_aio_submit. */
    method BeginSubmit(ghost r: nat)
      requires Valid() && A.Enabled(s, A.Submit(r))
      modifies this
      ensures Valid() && s == A.Apply(old(s), A.Submit(r))
    {
      ghost var s' := A.Stepped(s, A.Submit(r));
      nreqs := nreqs + 1;
      s := s';
    }

    /** And the second, when the push has failed. */
    method CancelSubmit(ghost r: nat)
      requires Valid() && A.Enabled(s, A.PushFailed(r))
      modifies this
      ensures Valid() && s == A.Apply(old(s), A.PushFailed(r))
    {
      ghost var s' := A.Stepped(s, A.PushFailed(r));
      nreqs := nreqs - 1;
      s := s';
    }

    /** jk_aio_nreqs */
    method Nreqs() returns (waits: int)
      requires Valid()
      ensures waits ==
        |s.submitting| + |s.pool.tasks| + |s.completed| + P.Busy(s.pool.workers) - A.Bit(s.writer.Writer?)
      ensures waits >= 0
    {
      waits := nreqs - ncoms;
      if s.writer.Writer? {
        P.SumUpdate(s.pool.workers, P.WithTask(), s.writer.w, P.Top);
      }
    }

    /** The writes to the list in jk_aio_fininsh. */
    method Link(req: Request)
      requires Queue(queue, rhead, rtail) && req !in queue
      modifies this`rhead, this`rtail, req`next, queue
      ensures Queue(queue + [req], rhead, rtail)
    {
      req.next := null;
      if rhead == null {
        rhead := req;
      }
      if rtail != null {
        rtail.next := req;
      }
      rtail := req;
    }

    /** The critical section of jk_aio_fininsh, up to the notice. */
    method Enqueue(ghost w: nat, req: Request)
      requires Valid() && A.Enabled(s, A.Enqueue(w)) && s.pool.workers[w].task.id == req.id
      modifies this, req`next, queue
      ensures Valid() && s == A.Apply(old(s), A.Enqueue(w)) && queue == old(queue) + [req]
    {
      A.NotYetQueued(s, w);
      ghost var s' := A.Stepped(s, A.Enqueue(w));
      Link(req);
      s, queue := s', queue + [req];
    }

    /** The critical section of jk_aio_poll. */
    method Dequeue(ghost c: nat) returns (req: Request?)
      requires Valid() && A.Enabled(s, A.PollOnce(c))
      modifies this
      ensures Valid() && s == A.Apply(old(s), A.PollOnce(c)) && c < |s.consumers|
      ensures req == null <==> old(s).completed == []
      ensures req == null ==> s.consumers[c].Working? && queue == old(queue)
      ensures req != null ==> A.IsCallback(s.consumers[c], req.id) && old(queue) == [req] + queue
    {
      ghost var s' := A.PollStepped(s, c);
      req := rhead;
      if req == null {
        s := s';
        return;
      }
      Unlink();
      Counted(ncoms + 1, s');
    }

    /** One more request has been taken. */
    method Counted(n: int, ghost s': A.Aio)
      requires A.Inv(s') && nreqs == s'.nreqs && n == s'.ncoms
      requires Queue(queue, rhead, rtail) && IdsAre(queue, s'.completed)
      modifies this`ncoms, this`s
      ensures Valid() && s == s'
    {
      ncoms, s := n, s';
    }

    /** Takes the first request off the list. */
    method Unlink()
      requires Queue(queue, rhead, rtail) && rhead != null && IdsAre(queue, s.completed)
      modifies this`rhead, this`rtail, this`queue
      ensures Queue(queue, rhead, rtail) && old(queue) == [old(rhead)] + queue
      ensures s.completed != [] && old(rhead).id == s.completed[0] && IdsAre(queue, s.completed[1..])
    {
      rhead := rhead.next;
      if rhead == null {
        rtail := null;
      }
      queue := queue[1..];
    }
  }
}
