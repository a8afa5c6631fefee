/** POOL_ctx: the shared state of the thread pool and its critical sections, each of which runs under the mutex. */
module Pool {

  type Job = int

  /** The fields that the mutex protects. */
  datatype Shared = Shared(
    queue: seq<Job>, queueHead: nat, queueTail: nat, queueEmpty: bool,
    numThreadsBusy: nat, threadLimit: nat, shutdown: bool)
  {
    function QueueSize(): nat { |queue| }

    predicate WellFormed() { |queue| > 0 && queueHead < |queue| && queueTail < |queue| }
  }

  /** isQueueFull. */
  predicate IsQueueFull(p: Shared)
    requires p.WellFormed()
  {
    if p.QueueSize() > 1 then p.queueHead == (p.queueTail + 1) % p.QueueSize()
    else p.numThreadsBusy == p.threadLimit || !p.queueEmpty
  }

  /** A worker stays out of the queue: it waits, or leaves when the pool shuts down. */
  predicate HoldsBack(p: Shared)
  {
    p.queueEmpty || p.numThreadsBusy >= p.threadLimit
  }

  function Popped(p: Shared): Shared
    requires p.WellFormed()
  {
    var head := (p.queueHead + 1) % p.QueueSize();
    p.(queueHead := head, numThreadsBusy := p.numThreadsBusy + 1, queueEmpty := head == p.queueTail)
  }

  function Finished(p: Shared): Shared
  {
    if p.numThreadsBusy > 0 then p.(numThreadsBusy := p.numThreadsBusy - 1) else p
  }

  /** POOL_add_internal, which drops the job once the pool shuts down. */
  function Added(p: Shared, job: Job): Shared
    requires p.WellFormed()
  {
    if p.shutdown then p
    else
      p.(queueEmpty := false, queue := p.queue[p.queueTail := job], queueTail := (p.queueTail + 1) % p.QueueSize())
  }

  // ----- the ring -----

  /** The ring holds the jobs `pending`, oldest first. */
  ghost predicate Represents(p: Shared, pending: seq<Job>)
  {
    && p.WellFormed()
    && |pending| <= (if p.QueueSize() > 1 then p.QueueSize() - 1 else 1)
    && (p.queueEmpty <==> pending == [])
    && p.queueTail == (p.queueHead + |pending|) % p.QueueSize()
    && (forall i :: 0 <= i < |pending| ==> p.queue[(p.queueHead + i) % p.QueueSize()] == pending[i])
  }

  lemma Wrap(h: nat, i: nat, n: nat)
    requires h < n && i <= n
    ensures (h + i) % n == if h + i < n then h + i else h + i - n
  {
  }

  /** Taking the oldest job. */
  lemma PopKeeps(p: Shared, pending: seq<Job>)
    requires Represents(p, pending) && pending != []
    ensures p.queue[p.queueHead] == pending[0] && Represents(Popped(p), pending[1..])
  {
    var n, h := p.QueueSize(), p.queueHead;
    var q := Popped(p);
    Wrap(h, 0, n);
    assert p.queue[(h + 0) % n] == pending[0];
    Wrap(h, 1, n);
    Wrap(h, |pending|, n);
    Wrap(q.queueHead, |pending| - 1, n);
    forall i | 0 <= i < |pending| - 1
      ensures q.queue[(q.queueHead + i) % n] == pending[1..][i]
    {
      Wrap(q.queueHead, i, n);
      Wrap(h, i + 1, n);
      assert p.queue[(h + (i + 1)) % n] == pending[i + 1];
    }
  }

  /** The queue counts as full when one slot less than it has is taken; a ring of one slot takes no job for later. */
  lemma FullMeans(p: Shared, pending: seq<Job>)
    requires Represents(p, pending)
    ensures IsQueueFull(p) <==>
              if p.QueueSize() > 1 then |pending| == p.QueueSize() - 1
              else |pending| == 1 || p.numThreadsBusy == p.threadLimit
  {
    Wrap(p.queueHead, |pending|, p.QueueSize());
    Wrap(p.queueTail, 1, p.QueueSize());
  }

  /** A job goes into a free slot, behind all others. */
  lemma AddKeeps(p: Shared, pending: seq<Job>, job: Job)
    requires Represents(p, pending) && !p.shutdown && !IsQueueFull(p)
    ensures Represents(Added(p, job), pending + [job])
  {
    var n, h, len := p.QueueSize(), p.queueHead, |pending|;
    var q := Added(p, job);
    Wrap(h, len, n);
    Wrap(p.queueTail, 1, n);
    Wrap(h, len + 1, n);
    forall i | 0 <= i < len + 1
      ensures q.queue[(h + i) % n] == (pending + [job])[i]
    {
      Wrap(h, i, n);
      if i < len {
        assert p.queue[(h + i) % n] == pending[i];
      }
    }
  }

  // ----- the context -----

  class Ctx {
    const queue: array<Job>
    var queueHead: nat
    var queueTail: nat
    var queueEmpty: bool
    var numThreadsBusy: nat
    var threadCapacity: nat
    var threadLimit: nat
    var shutdown: bool
    /** The jobs that wait, oldest first. */
    ghost var pending: seq<Job>

    function View(): Shared
      reads this, queue
    {
      Shared(queue[..], queueHead, queueTail, queueEmpty, numThreadsBusy, threadLimit, shutdown)
    }

    /** The ring holds the jobs that wait. */
    ghost predicate Valid()
      reads this, queue
    {
      Represents(View(), pending)
    }

    /** POOL_create: the queue has one slot more than asked for. */
    constructor (numThreads: nat, queueSize: nat)
      requires numThreads > 0
      ensures Valid() && pending == [] && queue.Length == queueSize + 1 && fresh(queue)
      ensures queueHead == queueTail == 0 && queueEmpty && numThreadsBusy == 0 && threadLimit == numThreads && !shutdown
      ensures threadCapacity == numThreads
    {
      queue := new Job[queueSize + 1];
      queueHead, queueTail, numThreadsBusy, queueEmpty, shutdown := 0, 0, 0, true, false;
      threadCapacity, threadLimit := numThreads, numThreads;
      pending := [];
    }

    /** The part of POOL_thread that takes a job. */
    method Pop() returns (job: Job)
      requires Valid() && !HoldsBack(View())
      modifies this`queueHead, this`numThreadsBusy, this`queueEmpty, this`pending
      ensures Valid() && old(pending) != [] && job == old(pending)[0] && pending == old(pending)[1..]
      ensures job == old(queue[queueHead]) && View() == Popped(old(View()))
      ensures old(numThreadsBusy) < threadLimit && numThreadsBusy == old(numThreadsBusy) + 1 <= threadLimit
    {
      PopKeeps(View(), pending);
      pending := pending[1..];
      job := queue[queueHead];
      queueHead := (queueHead + 1) % queue.Length;
      numThreadsBusy := numThreadsBusy + 1;
      queueEmpty := queueHead == queueTail;
    }

    /** The part of POOL_thread after a job. */
    method Finish()
      requires Valid() && numThreadsBusy > 0
      modifies this`numThreadsBusy
      ensures Valid() && View() == Finished(old(View()))
    {
      numThreadsBusy := numThreadsBusy - 1;
    }

    /** POOL_add_internal, whose callers have waited for room or seen that there is some. */
    method AddInternal(job: Job)
      requires Valid() && (shutdown || !IsQueueFull(View()))
      modifies this`queueEmpty, this`queueTail, this`pending, queue
      ensures Valid() && pending == if shutdown then old(pending) else old(pending) + [job]
      ensures View() == Added(old(View()), job)
    {
      if shutdown {
        return;
      }
      AddKeeps(View(), pending, job);
      pending := pending + [job];
      queueEmpty := false;
      queue[queueTail] := job;
      queueTail := (queueTail + 1) % queue.Length;
    }

    /** POOL_tryAdd: a full queue refuses the job; a pool that shuts down reports success and drops it. */
    method TryAdd(job: Job) returns (added: bool)
      requires Valid()
      modifies this`queueEmpty, this`queueTail, this`pending, queue
      ensures Valid() && pending == if added && !shutdown then old(pending) + [job] else old(pending)
      ensures added <==> !IsQueueFull(old(View()))
      ensures added <==> if queue.Length > 1 then |old(pending)| < queue.Length - 1
                         else old(pending) == [] && numThreadsBusy != threadLimit
      ensures View() == if added then Added(old(View()), job) else old(View())
    {
      FullMeans(View(), pending);
      var full := if queue.Length > 1 then queueHead == (queueTail + 1) % queue.Length
                  else numThreadsBusy == threadLimit || !queueEmpty;
      if full {
        return false;
      }
      AddInternal(job);
      return true;
    }

    /** POOL_resize_internal; `created` is how many of the additional threads could be started. */
    method ResizeInternal(numThreads: nat, created: nat) returns (failed: bool)
      requires Valid() && created <= (if numThreads > threadCapacity then numThreads - threadCapacity else 0)
      modifies this`threadCapacity, this`threadLimit
      ensures failed <==> numThreads == 0 || numThreads > old(threadCapacity) + created
      ensures Valid() && View() == old(View()).(threadLimit := if failed then old(threadLimit) else numThreads)
      ensures threadCapacity == old(threadCapacity) + created
    {
      if numThreads <= threadCapacity {
        if numThreads == 0 {
          return true;
        }
        threadLimit := numThreads;
        return false;
      }
      threadCapacity := threadCapacity + created;
      if threadCapacity < numThreads {
        return true;
      }
      threadLimit := numThreads;
      return false;
    }
  }
}
