// threadpool/threadpool.c: the job queue behind the mutex, and every interleaving of workers, callers and destroyers.
module ThreadPools {

  type Job = nat

  // ---------- what the mutex protects ----------

  datatype Queue = Queue(max: nat, jobs: seq<Job>, queueClose: bool, poolClose: bool)

  datatype AddOutcome = AddWaits | AddRefused | Added(broadcastNotEmpty: bool)

  datatype TakeOutcome = TakeWaits | TakeExits | Took(job: Job, signalEmpty: bool, broadcastNotFull: bool)

  datatype CloseOutcome = CloseRefused | CloseWaits | PoolClosed

  // One pass of threadpool_add_job from the test of its while loop to the unlock or the wait.
  function Add(q: Queue, j: Job): (Queue, AddOutcome) {
    if |q.jobs| == q.max && !(q.queueClose || q.poolClose) then (q, AddWaits)
    else if q.queueClose || q.poolClose then (q, AddRefused)
    else (q.(jobs := q.jobs + [j]), Added(q.jobs == []))
  }

  // One pass of threadpool_function.
  function Take(q: Queue): (Queue, TakeOutcome) {
    if |q.jobs| == 0 && !q.poolClose then (q, TakeWaits)
    else if q.poolClose || q.jobs == [] then (q, TakeExits)
    else (q.(jobs := q.jobs[1..]), Took(q.jobs[0], |q.jobs| == 1, |q.jobs| == q.max))
  }

  // The loop of threadpool_destroy that waits for the queue to run empty.
  function Drained(q: Queue): (Queue, CloseOutcome) {
    if q.jobs != [] then (q, CloseWaits) else (q.(poolClose := true), PoolClosed)
  }

  function Close(q: Queue): (Queue, CloseOutcome) {
    if q.queueClose || q.poolClose then (q, CloseRefused) else Drained(q.(queueClose := true))
  }

  // ---------- the same on the linked list ----------

  class JobNode {
    const job: Job
    var next: JobNode?
    ghost var rank: int

    constructor (job: Job)
      ensures this.job == job && next == null
    {
      this.job := job;
      next := null;
    }
  }

  ghost function At(nodes: seq<JobNode>, i: int): JobNode? {
    if 0 <= i < |nodes| then nodes[i] else null
  }

  ghost function Jobs(nodes: seq<JobNode>): (s: seq<Job>)
    ensures |s| == |nodes| && forall i | 0 <= i < |nodes| :: s[i] == nodes[i].job
  {
    seq(|nodes|, i requires 0 <= i < |nodes| => nodes[i].job)
  }

  class JobQueue {
    const queueMaxNum: nat
    var queueCurNum: int
    var head: JobNode?
    var tail: JobNode?
    var queueClose: bool
    var poolClose: bool
    ghost var nodes: seq<JobNode>
    ghost var repr: set<JobNode>

    ghost predicate Valid()
      reads this, repr
    {
      && queueCurNum == |nodes|
      && (forall i | 0 <= i < |nodes| :: nodes[i] in repr)
      && (forall i | 0 <= i < |nodes| :: nodes[i].rank == nodes[0].rank + i)
      && head == At(nodes, 0)
      && tail == At(nodes, |nodes| - 1)
      && (forall i {:trigger nodes[i].next} | 0 <= i < |nodes| :: nodes[i].next == At(nodes, i + 1))
      && (poolClose ==> nodes == [])
    }

    ghost function View(): Queue
      reads this
    {
      Queue(queueMaxNum, Jobs(nodes), queueClose, poolClose)
    }

    constructor (queueMaxNum: nat)
      ensures Valid() && View() == Queue(queueMaxNum, [], false, false) && repr == {}
    {
      this.queueMaxNum := queueMaxNum;
      queueCurNum, head, tail := 0, null, null;
      queueClose, poolClose := false, false;
      nodes, repr := [], {};
    }

    method AddJob(j: Job) returns (r: AddOutcome)
      requires Valid()
      modifies this, repr
      ensures Valid() && fresh(repr - old(repr))
      ensures (View(), r) == Add(old(View()), j)
      ensures r.Added? ==> (r.broadcastNotEmpty <==> old(nodes) == [])
    {
      if queueCurNum == queueMaxNum && !(queueClose || poolClose) {
        return AddWaits;
      }
      if queueClose || poolClose {
        return AddRefused;
      }
      var pjob := new JobNode(j);
      var wasEmpty := head == null;
      Link(pjob);
      r := Added(wasEmpty);
    }

    // Hang a node behind the tail.
    method Link(pjob: JobNode)
      requires Valid() && !poolClose && pjob !in repr && pjob.next == null
      modifies this, repr, pjob
      ensures Valid() && repr == old(repr) + {pjob}
      ensures View() == old(View()).(jobs := old(View()).jobs + [pjob.job])
    {
      if head == null {
        head, tail := pjob, pjob;
      } else {
        tail.next := pjob;
        tail := pjob;
      }
      queueCurNum := queueCurNum + 1;
      pjob.rank := if nodes == [] then 0 else nodes[0].rank + |nodes|;
      nodes := nodes + [pjob];
      assert Jobs(nodes) == old(Jobs(nodes)) + [pjob.job];
      repr := repr + {pjob};
    }

    method TakeJob() returns (r: TakeOutcome)
      requires Valid()
      modifies this
      ensures Valid() && repr == old(repr)
      ensures (View(), r) == Take(old(View()))
      ensures r.Took? ==> (r.signalEmpty <==> old(|nodes|) == 1)
      ensures r.Took? ==> (r.broadcastNotFull <==> old(|nodes|) == queueMaxNum)
    {
      if queueCurNum == 0 && !poolClose {
        return TakeWaits;
      }
      if poolClose {
        return TakeExits;
      }
      queueCurNum := queueCurNum - 1;
      var pjob := head;
      if queueCurNum == 0 {
        head, tail := null, null;
      } else {
        assert nodes[0].next == At(nodes, 1);
        head := pjob.next;
      }
      r := Took(pjob.job, queueCurNum == 0, queueCurNum == queueMaxNum - 1);
      assert pjob.job == Jobs(nodes)[0];
      nodes := nodes[1..];
      assert Jobs(nodes) == old(Jobs(nodes))[1..];
    }

    method CloseQueue() returns (r: CloseOutcome)
      requires Valid()
      modifies this
      ensures Valid() && repr == old(repr)
      ensures (View(), r) == Close(old(View()))
    {
      if queueClose || poolClose {
        return CloseRefused;
      }
      queueClose := true;
      r := CloseWhenDrained();
    }

    method CloseWhenDrained() returns (r: CloseOutcome)
      requires Valid()
      modifies this
      ensures Valid() && repr == old(repr)
      ensures (View(), r) == Drained(old(View()))
    {
      if queueCurNum != 0 {
        return CloseWaits;
      }
      poolClose := true;
      r := PoolClosed;
    }
  }
}
