// Every interleaving of the thread pool's workers, callers and destroyers, one critical section at a time.
module PoolRuns {
  import opened Sums
  import opened ThreadPools

  // Where a worker is: about to lock, asleep on queue_not_empty, woken but without the lock yet, running a job
  // outside the lock, or gone.
  datatype Worker = Ready | Asleep | Woken | Running(job: Job) | Exited

  // A call of threadpool_add_job.
  datatype Caller = Calling(job: Job) | Blocked(job: Job) | Roused(job: Job) | Accepted | Refused

  // A call of threadpool_destroy; after Closed come the two broadcasts, which are sent without the lock.
  datatype Destroyer = Asked | Draining | Alerted | Closed | Announced | Joining | Gone | TurnedAway

  // The histories: jobs accepted and taken, in order, and jobs run to the end.  wild: a thread has used the pool after
  // destroy had freed it; the model lets it go on as if the memory still held what it held.
  datatype Pool = Pool(
    queue: Queue, workers: seq<Worker>, callers: seq<Caller>, destroyers: seq<Destroyer>,
    accepted: seq<Job>, taken: seq<Job>, executed: multiset<Job>, wild: bool)

  // One step of one thread.  A signal on queue_empty wakes the destroyer `whom`, if one is waiting.
  datatype Action =
    | AddPass(i: nat) | WorkPass(i: nat, whom: int) | RunJob(i: nat)
    | ClosePass(i: nat) | BroadcastNotEmpty(i: nat) | BroadcastNotFull(i: nat) | Join(i: nat)
    | SpuriousWorker(i: nat) | SpuriousCaller(i: nat) | SpuriousDestroyer(i: nat)

  predicate IsSpurious(a: Action) {
    a.SpuriousWorker? || a.SpuriousCaller? || a.SpuriousDestroyer?
  }

  function WakeAll(ws: seq<Worker>): (r: seq<Worker>)
    ensures |r| == |ws| && forall i | 0 <= i < |ws| :: r[i] == if ws[i] == Asleep then Woken else ws[i]
  {
    seq(|ws|, i requires 0 <= i < |ws| => if ws[i] == Asleep then Woken else ws[i])
  }

  function RouseAll(cs: seq<Caller>): (r: seq<Caller>)
    ensures |r| == |cs| && forall i | 0 <= i < |cs| :: r[i] == if cs[i].Blocked? then Roused(cs[i].job) else cs[i]
  {
    seq(|cs|, i requires 0 <= i < |cs| => if cs[i].Blocked? then Roused(cs[i].job) else cs[i])
  }

  predicate SomeDraining(ds: seq<Destroyer>) {
    exists k | 0 <= k < |ds| :: ds[k] == Draining
  }

  // Destroy has freed the pool.
  predicate Freed(p: Pool) {
    exists k | 0 <= k < |p.destroyers| :: p.destroyers[k] == Gone
  }

  predicate AllExited(ws: seq<Worker>) {
    forall i | 0 <= i < |ws| :: ws[i] == Exited
  }

  predicate RightSignal(p: Pool, whom: int) {
    var r := Take(p.queue).1;
    if r.Took? && r.signalEmpty && SomeDraining(p.destroyers)
    then 0 <= whom < |p.destroyers| && p.destroyers[whom] == Draining
    else whom == -1
  }

  predicate Enabled(p: Pool, a: Action) {
    match a
    case AddPass(i) => i < |p.callers| && (p.callers[i].Calling? || p.callers[i].Roused?)
    case WorkPass(i, whom) => i < |p.workers| && (p.workers[i] == Ready || p.workers[i] == Woken)
        && RightSignal(p, whom)
    case RunJob(i) => i < |p.workers| && p.workers[i].Running?
    case ClosePass(i) => i < |p.destroyers| && (p.destroyers[i] == Asked || p.destroyers[i] == Alerted)
    case BroadcastNotEmpty(i) => i < |p.destroyers| && p.destroyers[i] == Closed
    case BroadcastNotFull(i) => i < |p.destroyers| && p.destroyers[i] == Announced
    case Join(i) => i < |p.destroyers| && p.destroyers[i] == Joining && AllExited(p.workers)
    case SpuriousWorker(i) => i < |p.workers| && p.workers[i] == Asleep
    case SpuriousCaller(i) => i < |p.callers| && p.callers[i].Blocked?
    case SpuriousDestroyer(i) => i < |p.destroyers| && p.destroyers[i] == Draining
  }

  function DoAdd(p: Pool, i: nat): Pool
    requires Enabled(p, AddPass(i))
  {
    var j := p.callers[i].job;
    var r := Add(p.queue, j);
    match r.1
    case AddWaits => p.(callers := p.callers[i := Blocked(j)])
    case AddRefused => p.(callers := p.callers[i := Refused])
    case Added(broadcast) =>
      p.(queue := r.0, callers := p.callers[i := Accepted], accepted := p.accepted + [j],
         workers := if broadcast then WakeAll(p.workers) else p.workers)
  }

  function DoWork(p: Pool, i: nat, whom: int): Pool
    requires Enabled(p, WorkPass(i, whom))
  {
    var r := Take(p.queue);
    match r.1
    case TakeWaits => p.(workers := p.workers[i := Asleep])
    case TakeExits => p.(workers := p.workers[i := Exited])
    case Took(j, signal, broadcast) =>
      p.(queue := r.0, workers := p.workers[i := Running(j)], taken := p.taken + [j],
         destroyers := if whom >= 0 then p.destroyers[whom := Alerted] else p.destroyers,
         callers := if broadcast then RouseAll(p.callers) else p.callers)
  }

  function DoClose(p: Pool, i: nat): Pool
    requires Enabled(p, ClosePass(i))
  {
    var r := if p.destroyers[i] == Asked then Close(p.queue) else Drained(p.queue);
    match r.1
    case CloseRefused => p.(destroyers := p.destroyers[i := TurnedAway])
    case CloseWaits => p.(queue := r.0, destroyers := p.destroyers[i := Draining])
    case PoolClosed => p.(queue := r.0, destroyers := p.destroyers[i := Closed])
  }

  function Move(p: Pool, a: Action): Pool
    requires Enabled(p, a)
  {
    match a
    case AddPass(i) => DoAdd(p, i)
    case WorkPass(i, whom) => DoWork(p, i, whom)
    case RunJob(i) => p.(workers := p.workers[i := Ready], executed := p.executed + multiset{p.workers[i].job})
    case ClosePass(i) => DoClose(p, i)
    case BroadcastNotEmpty(i) => p.(destroyers := p.destroyers[i := Announced], workers := WakeAll(p.workers))
    case BroadcastNotFull(i) => p.(destroyers := p.destroyers[i := Joining], callers := RouseAll(p.callers))
    case Join(i) => p.(destroyers := p.destroyers[i := Gone])
    case SpuriousWorker(i) => p.(workers := p.workers[i := Woken])
    case SpuriousCaller(i) => p.(callers := p.callers[i := Roused(p.callers[i].job)])
    case SpuriousDestroyer(i) => p.(destroyers := p.destroyers[i := Alerted])
  }

  function Do(p: Pool, a: Action): Pool
    requires Enabled(p, a)
  {
    Move(p, a).(wild := p.wild || Freed(p))
  }

  predicate Initial(p: Pool) {
    && p.queue.jobs == [] && !p.queue.queueClose && !p.queue.poolClose
    && (forall i | 0 <= i < |p.workers| :: p.workers[i] == Ready)
    && (forall i | 0 <= i < |p.callers| :: p.callers[i].Calling?)
    && (forall i | 0 <= i < |p.destroyers| :: p.destroyers[i] == Asked)
    && p.accepted == [] && p.taken == [] && p.executed == multiset{} && !p.wild
  }

  // p' can be reached from p by these steps.
  ghost predicate Run(p: Pool, steps: seq<Action>, p': Pool)
    decreases |steps|
  {
    if steps == [] then p' == p
    else Enabled(p, steps[0]) && Run(Do(p, steps[0]), steps[1..], p')
  }

  // ---------- the invariant ----------

  function RunningJobs(ws: seq<Worker>): multiset<Job> {
    if ws == [] then multiset{} else (if ws[0].Running? then multiset{ws[0].job} else multiset{}) + RunningJobs(ws[1..])
  }

  // A destroyer that got past the test at its top, and one that has closed the pool.
  predicate Active(d: Destroyer) {
    d != Asked && d != TurnedAway
  }

  predicate HasClosed(d: Destroyer) {
    d == Closed || d == Announced || d == Joining || d == Gone
  }

  // Accounting: nothing accepted is lost, taken twice or out of order.
  ghost predicate Accounts(p: Pool) {
    && p.accepted == p.taken + p.queue.jobs
    && multiset(p.taken) == p.executed + RunningJobs(p.workers)
    && |p.queue.jobs| <= p.queue.max
  }

  // No lost wake-up: whoever sleeps un-notified still has reason to.
  ghost predicate NoLostWakeup(p: Pool) {
    && (forall i | 0 <= i < |p.workers| :: p.workers[i] == Asleep ==> p.queue.jobs == [])
    && (forall i | 0 <= i < |p.callers| :: p.callers[i].Blocked? ==> |p.queue.jobs| == p.queue.max)
    && (forall k | 0 <= k < |p.destroyers| :: p.destroyers[k] == Draining ==> p.queue.jobs != [])
  }

  // The two flags, and what each phase of destroy guarantees.
  ghost predicate Flags(p: Pool) {
    && (p.queue.queueClose <==> SomeActive(p.destroyers))
    && (p.queue.poolClose <==> SomeClosed(p.destroyers))
    && (p.queue.poolClose ==> p.queue.jobs == [])
    && OneActive(p.destroyers)
  }

  ghost predicate Phases(p: Pool) {
    forall k | 0 <= k < |p.destroyers| ::
      && (p.destroyers[k] in {Announced, Joining, Gone} ==> forall i | 0 <= i < |p.workers| :: p.workers[i] != Asleep)
      && (p.destroyers[k] in {Joining, Gone} ==> forall i | 0 <= i < |p.callers| :: !p.callers[i].Blocked?)
      && (p.destroyers[k] == Gone ==> AllExited(p.workers))
  }

  ghost predicate Exits(p: Pool) {
    forall i | 0 <= i < |p.workers| :: p.workers[i] == Exited ==> p.queue.poolClose
  }

  ghost predicate Inv(p: Pool) {
    Accounts(p) && NoLostWakeup(p) && Flags(p) && Phases(p) && Exits(p)
  }

  lemma {:induction false} NobodyRuns(ws: seq<Worker>)
    requires forall i | 0 <= i < |ws| :: !ws[i].Running?
    ensures RunningJobs(ws) == multiset{}
  {
    if ws != [] {
      NobodyRuns(ws[1..]);
    }
  }

  lemma InitialInv(p: Pool)
    requires Initial(p)
    ensures Inv(p)
  {
    NobodyRuns(p.workers);
  }

  function RunningJob(w: Worker): multiset<Job> {
    if w.Running? then multiset{w.job} else multiset{}
  }

  lemma {:induction false} RunningJobsAppend(v: seq<Worker>, w: seq<Worker>)
    ensures RunningJobs(v + w) == RunningJobs(v) + RunningJobs(w)
  {
    if v == [] {
      assert v + w == w;
    } else {
      assert (v + w)[1..] == v[1..] + w;
      RunningJobsAppend(v[1..], w);
    }
  }

  lemma OneMoves(ws: seq<Worker>, i: nat, w: Worker)
    requires i < |ws|
    ensures RunningJobs(ws[i := w]) + RunningJob(ws[i]) == RunningJobs(ws) + RunningJob(w)
  {
    assert ws == ws[..i] + ([ws[i]] + ws[i + 1..]) && ws[i := w] == ws[..i] + ([w] + ws[i + 1..]);
    RunningJobsAppend(ws[..i], [ws[i]] + ws[i + 1..]);
    RunningJobsAppend(ws[..i], [w] + ws[i + 1..]);
    assert ([ws[i]] + ws[i + 1..])[1..] == ws[i + 1..] && ([w] + ws[i + 1..])[1..] == ws[i + 1..];
  }

  lemma {:induction false} WakingRunsNothing(ws: seq<Worker>)
    ensures RunningJobs(WakeAll(ws)) == RunningJobs(ws)
  {
    if ws != [] {
      assert WakeAll(ws)[1..] == WakeAll(ws[1..]);
      WakingRunsNothing(ws[1..]);
    }
  }

  // ---------- every step keeps the invariant ----------

  lemma AccountsKeptByWork(p: Pool, i: nat, whom: int)
    requires Accounts(p) && Enabled(p, WorkPass(i, whom))
    ensures Accounts(DoWork(p, i, whom))
  {
    hide RunningJobs, RightSignal, WakeAll, RouseAll, SomeDraining;
    var after := RunningJobs(DoWork(p, i, whom).workers);
    OneMoves(p.workers, i, DoWork(p, i, whom).workers[i]);
    if Take(p.queue).1.Took? {
      MoreRuns(RunningJobs(p.workers), after, p.queue.jobs[0]);
      TookOne(p.taken, p.queue.jobs, p.executed, RunningJobs(p.workers), after);
    } else {
      MoreRuns(RunningJobs(p.workers), after, 0);
    }
  }

  lemma TookOne(taken: seq<Job>, jobs: seq<Job>, executed: multiset<Job>, before: multiset<Job>, after: multiset<Job>)
    requires jobs != [] && multiset(taken) == executed + before && after == before + multiset{jobs[0]}
    ensures taken + jobs == taken + [jobs[0]] + jobs[1..] && multiset(taken + [jobs[0]]) == executed + after
  {
    assert jobs == [jobs[0]] + jobs[1..];
  }

  lemma MoreRuns(before: multiset<Job>, after: multiset<Job>, j: Job)
    ensures after + multiset{} == before + multiset{j} ==> after == before + multiset{j}
    ensures after + multiset{j} == before + multiset{} ==> after + multiset{j} == before
    ensures after + multiset{} == before + multiset{} ==> after == before
  {
    assert after + multiset{} == after && before + multiset{} == before;
  }

  lemma AccountsKeptByAdd(p: Pool, i: nat)
    requires Accounts(p) && Enabled(p, AddPass(i))
    ensures Accounts(DoAdd(p, i))
  {
    hide RunningJobs;
    WakingRunsNothing(p.workers);
    var j := p.callers[i].job;
    assert p.accepted + [j] == p.taken + (p.queue.jobs + [j]);
  }

  lemma AccountsKeptByRun(p: Pool, i: nat)
    requires Accounts(p) && Enabled(p, RunJob(i))
    ensures Accounts(Move(p, RunJob(i)))
  {
    hide RunningJobs;
    var p' := Move(p, RunJob(i));
    var j := p.workers[i].job;
    OneMoves(p.workers, i, Ready);
    MoreRuns(RunningJobs(p.workers), RunningJobs(p'.workers), j);
    assert p.executed + RunningJobs(p.workers) == p.executed + multiset{j} + RunningJobs(p'.workers);
  }

  lemma IdlerMoves(ws: seq<Worker>, i: nat, w: Worker)
    requires i < |ws| && !ws[i].Running? && !w.Running?
    ensures RunningJobs(ws[i := w]) == RunningJobs(ws)
  {
    hide RunningJobs;
    OneMoves(ws, i, w);
    MoreRuns(RunningJobs(ws), RunningJobs(ws[i := w]), 0);
  }

  lemma AccountsSame(p: Pool, q: Pool)
    requires Accounts(p) && RunningJobs(q.workers) == RunningJobs(p.workers)
    requires q.queue.jobs == p.queue.jobs && q.queue.max == p.queue.max
    requires q.accepted == p.accepted && q.taken == p.taken && q.executed == p.executed
    ensures Accounts(q)
  {
  }

  lemma AccountsKept(p: Pool, a: Action)
    requires Accounts(p) && Enabled(p, a)
    ensures Accounts(Move(p, a))
  {
    hide RunningJobs, DoAdd, DoWork, Accounts;
    var q := Move(p, a);
    match a
    case AddPass(i) => AccountsKeptByAdd(p, i);
    case WorkPass(i, whom) => AccountsKeptByWork(p, i, whom);
    case RunJob(i) => AccountsKeptByRun(p, i);
    case SpuriousWorker(i) =>
      IdlerMoves(p.workers, i, Woken);
      AccountsSame(p, q);
    case BroadcastNotEmpty(i) =>
      WakingRunsNothing(p.workers);
      AccountsSame(p, q);
    case _ => AccountsSame(p, q);
  }

  lemma WakeupsKeptByAdd(p: Pool, i: nat)
    requires NoLostWakeup(p) && Flags(p) && |p.queue.jobs| <= p.queue.max && Enabled(p, AddPass(i))
    ensures NoLostWakeup(DoAdd(p, i))
  {
    hide OneActive, SomeClosed;
  }

  lemma WakeupsKeptByWork(p: Pool, i: nat, whom: int)
    requires NoLostWakeup(p) && Flags(p) && |p.queue.jobs| <= p.queue.max && Enabled(p, WorkPass(i, whom))
    ensures NoLostWakeup(DoWork(p, i, whom))
  {
    hide SomeClosed;
  }

  lemma WakeupsKept(p: Pool, a: Action)
    requires NoLostWakeup(p) && Flags(p) && |p.queue.jobs| <= p.queue.max && Enabled(p, a)
    ensures NoLostWakeup(Move(p, a))
  {
    hide DoAdd, DoWork, Flags;
    match a
    case AddPass(i) => WakeupsKeptByAdd(p, i);
    case WorkPass(i, whom) => WakeupsKeptByWork(p, i, whom);
    case _ =>
  }

  predicate SomeActive(ds: seq<Destroyer>) {
    exists k | 0 <= k < |ds| :: Active(ds[k])
  }

  predicate SomeClosed(ds: seq<Destroyer>) {
    exists k | 0 <= k < |ds| :: HasClosed(ds[k])
  }

  lemma StillActive(ds: seq<Destroyer>, i: nat, d: Destroyer)
    requires i < |ds|
    ensures Active(d) ==> SomeActive(ds[i := d])
    ensures !Active(ds[i]) && !Active(d) ==> (SomeActive(ds[i := d]) <==> SomeActive(ds))
    ensures HasClosed(d) ==> SomeClosed(ds[i := d])
    ensures !HasClosed(ds[i]) && !HasClosed(d) ==> (SomeClosed(ds[i := d]) <==> SomeClosed(ds))
  {
    var e := ds[i := d];
    if Active(d) {
      assert Active(e[i]);
    }
    if HasClosed(d) {
      assert HasClosed(e[i]);
    }
    if !Active(ds[i]) && !Active(d) {
      if k :| 0 <= k < |ds| && Active(ds[k]) {
        assert Active(e[k]);
      }
    }
    if !HasClosed(ds[i]) && !HasClosed(d) {
      if k :| 0 <= k < |ds| && HasClosed(ds[k]) {
        assert HasClosed(e[k]);
      }
    }
  }

  ghost predicate OneActive(ds: seq<Destroyer>) {
    forall k, l | 0 <= k < |ds| && 0 <= l < |ds| :: Active(ds[k]) && Active(ds[l]) ==> k == l
  }

  // A destroyer that is already past the first test moves on.
  lemma FlagsMoveOn(p: Pool, p': Pool, i: nat, d: Destroyer)
    requires Flags(p) && i < |p.destroyers| && Active(p.destroyers[i]) && Active(d)
    requires p'.destroyers == p.destroyers[i := d]
    requires p'.queue.queueClose == p.queue.queueClose
    requires HasClosed(p.destroyers[i]) == HasClosed(d) && p'.queue.poolClose == p.queue.poolClose
    requires p.queue.poolClose ==> p'.queue.jobs == []
    ensures Flags(p')
  {
    StillActive(p.destroyers, i, d);
  }

  lemma FlagsKeptByClose(p: Pool, i: nat)
    requires Flags(p) && Enabled(p, ClosePass(i))
    ensures Flags(DoClose(p, i))
  {
    StillActive(p.destroyers, i, DoClose(p, i).destroyers[i]);
  }

  lemma FlagsKept(p: Pool, a: Action)
    requires Flags(p) && Enabled(p, a)
    ensures Flags(Move(p, a))
  {
    var p' := Move(p, a);
    match a
    case WorkPass(i, whom) => if whom >= 0 { FlagsMoveOn(p, p', whom, Alerted); }
    case ClosePass(i) => FlagsKeptByClose(p, i);
    case BroadcastNotEmpty(i) => FlagsMoveOn(p, p', i, Announced);
    case BroadcastNotFull(i) => FlagsMoveOn(p, p', i, Joining);
    case Join(i) => FlagsMoveOn(p, p', i, Gone);
    case SpuriousDestroyer(i) => FlagsMoveOn(p, p', i, Alerted);
    case _ =>
  }

  // In a phase that starts with the pool closed, the queue is empty and no other destroyer is under way.
  lemma PhasesKeptByWork(p: Pool, i: nat, whom: int)
    requires Phases(p) && Flags(p) && Enabled(p, WorkPass(i, whom))
    ensures Phases(DoWork(p, i, whom))
  {
    if k :| 0 <= k < |p.destroyers| && p.destroyers[k] in {Announced, Joining, Gone} {
      assert HasClosed(p.destroyers[k]);
    }
  }

  lemma PhasesKeptByAdd(p: Pool, i: nat)
    requires Phases(p) && Flags(p) && Enabled(p, AddPass(i))
    ensures Phases(DoAdd(p, i))
  {
    if k :| 0 <= k < |p.destroyers| && p.destroyers[k] in {Announced, Joining, Gone} {
      assert HasClosed(p.destroyers[k]);
    }
  }

  lemma PhasesKept(p: Pool, a: Action)
    requires Phases(p) && Flags(p) && Enabled(p, a)
    ensures Phases(Move(p, a))
  {
    hide DoAdd, DoWork;
    match a
    case AddPass(i) => PhasesKeptByAdd(p, i);
    case WorkPass(i, whom) => PhasesKeptByWork(p, i, whom);
    case _ =>
  }

  lemma ExitsKept(p: Pool, a: Action)
    requires Exits(p) && Enabled(p, a)
    ensures Exits(Move(p, a))
  {
  }

  lemma StepKeepsInv(p: Pool, a: Action)
    requires Inv(p) && Enabled(p, a)
    ensures Inv(Do(p, a))
  {
    hide Move, Accounts, NoLostWakeup, Flags, Phases, Exits, Freed;
    assert |p.queue.jobs| <= p.queue.max by { QueueFits(p); }
    AccountsKept(p, a);
    WakeupsKept(p, a);
    FlagsKept(p, a);
    PhasesKept(p, a);
    ExitsKept(p, a);
    InvIgnoresWild(Move(p, a), p.wild || Freed(p));
  }

  lemma InvIgnoresWild(p: Pool, wild: bool)
    requires Inv(p)
    ensures Inv(p.(wild := wild))
  {
  }

  lemma QueueFits(p: Pool)
    requires Accounts(p)
    ensures |p.queue.jobs| <= p.queue.max
  {
  }

  // ---------- whole runs ----------

  lemma {:induction false} RunKeepsInv(p: Pool, steps: seq<Action>, p': Pool)
    requires Inv(p) && Run(p, steps, p')
    ensures Inv(p')
    decreases |steps|
  {
    hide Inv, Do;
    if steps != [] {
      StepKeepsInv(p, steps[0]);
      RunKeepsInv(Do(p, steps[0]), steps[1..], p');
    }
  }

  lemma AddsUp(p: Pool)
    requires Inv(p)
    ensures p.accepted == p.taken + p.queue.jobs && multiset(p.taken) == p.executed + RunningJobs(p.workers)
    ensures p.queue.poolClose ==> p.queue.jobs == [] && p.queue.queueClose
  {
    hide RunningJobs, NoLostWakeup, Phases, Exits;
    if p.queue.poolClose {
      var k :| 0 <= k < |p.destroyers| && HasClosed(p.destroyers[k]);
      assert Active(p.destroyers[k]);
    }
  }

  lemma FreedIsDone(p: Pool)
    requires Inv(p) && Freed(p)
    ensures p.queue.jobs == [] && p.executed == multiset(p.accepted)
  {
    hide NoLostWakeup, Exits;
    var k :| 0 <= k < |p.destroyers| && p.destroyers[k] == Gone;
    assert HasClosed(p.destroyers[k]);
    NobodyRuns(p.workers);
    assert p.taken + [] == p.taken;
  }

  // In every run, however the threads interleave: jobs are taken in the order they were accepted, those not taken
  // are still queued, and those taken have been or are being run, each once.  When a destroy has returned, exactly
  // the accepted jobs have been run; the pool is closed only with the queue closed and empty.
  lemma NoJobIsLost(p: Pool, steps: seq<Action>, p': Pool)
    requires Initial(p) && Run(p, steps, p')
    ensures p'.accepted == p'.taken + p'.queue.jobs
    ensures multiset(p'.taken) == p'.executed + RunningJobs(p'.workers)
    ensures p'.queue.poolClose ==> p'.queue.jobs == [] && p'.queue.queueClose
    ensures Freed(p') ==> p'.queue.jobs == [] && p'.executed == multiset(p'.accepted)
  {
    hide *;
    InitialInv(p);
    RunKeepsInv(p, steps, p');
    AddsUp(p');
    if Freed(p') {
      FreedIsDone(p');
    }
  }

  // Signals are sent only where the queue turns non-empty, non-full or empty, and still no wake-up is ever lost.
  lemma NoWakeupIsLost(p: Pool, steps: seq<Action>, p': Pool)
    requires Initial(p) && Run(p, steps, p')
    ensures NoLostWakeup(p')
  {
    InitialInv(p);
    RunKeepsInv(p, steps, p');
  }

  // A state in which no thread can move, short of a spurious wake-up.
  ghost predicate Stuck(p: Pool) {
    forall a: Action :: Enabled(p, a) ==> IsSpurious(a)
  }

  function Whom(ds: seq<Destroyer>): (k: int)
    ensures if SomeDraining(ds) then 0 <= k < |ds| && ds[k] == Draining else k == -1
  {
    if ds == [] then -1
    else if ds[0] == Draining then assert SomeDraining(ds); 0
    else
      var k := Whom(ds[1..]);
      if k == -1 then
        assert !SomeDraining(ds) by {
          if l :| 0 <= l < |ds| && ds[l] == Draining {
            assert ds[1..][l - 1] == Draining;
          }
        }
        -1
      else assert ds[k + 1] == Draining; k + 1
  }

  predicate Returned(c: Caller) {
    c == Accepted || c == Refused
  }

  lemma StuckWorkers(p: Pool, i: nat)
    requires Stuck(p) && i < |p.workers|
    ensures p.workers[i] == Asleep || p.workers[i] == Exited
  {
    var r := Take(p.queue).1;
    var whom := if r.Took? && r.signalEmpty then Whom(p.destroyers) else -1;
    assert RightSignal(p, whom);
    assert Enabled(p, WorkPass(i, whom)) ==> IsSpurious(WorkPass(i, whom));
    assert Enabled(p, RunJob(i)) ==> IsSpurious(RunJob(i));
  }

  lemma StuckCallers(p: Pool, i: nat)
    requires Stuck(p) && i < |p.callers|
    ensures Returned(p.callers[i]) || p.callers[i].Blocked?
  {
    assert Enabled(p, AddPass(i)) ==> IsSpurious(AddPass(i));
  }

  lemma StuckDestroyers(p: Pool, k: nat)
    requires Stuck(p) && k < |p.destroyers|
    ensures p.destroyers[k] !in {Asked, Alerted, Closed, Announced}
    ensures p.destroyers[k] == Joining ==> !AllExited(p.workers)
  {
    assert Enabled(p, BroadcastNotEmpty(k)) ==> IsSpurious(BroadcastNotEmpty(k));
    assert Enabled(p, BroadcastNotFull(k)) ==> IsSpurious(BroadcastNotFull(k));
    assert Enabled(p, Join(k)) ==> IsSpurious(Join(k));
    assert Enabled(p, ClosePass(k)) ==> IsSpurious(ClosePass(k));
  }

  lemma StuckAndOpen(p: Pool)
    requires Inv(p) && Stuck(p) && !Freed(p)
    ensures !p.queue.poolClose
    ensures forall i | 0 <= i < |p.workers| :: p.workers[i] == Asleep
  {
    if p.queue.poolClose {
      var k :| 0 <= k < |p.destroyers| && HasClosed(p.destroyers[k]);
      StuckDestroyers(p, k);
      forall i | 0 <= i < |p.workers| ensures p.workers[i] == Exited {
        StuckWorkers(p, i);
      }
      assert false;
    }
    forall i | 0 <= i < |p.workers| ensures p.workers[i] == Asleep {
      StuckWorkers(p, i);
    }
  }

  predicate HasAnswer(d: Destroyer) {
    d == TurnedAway || d == Gone
  }

  // No deadlock: with at least one worker and room for at least one job, the pool comes to a standstill only when
  // the queue is empty, every accepted job has been run, every destroy has returned and every caller has its answer.
  lemma NoDeadlock(p: Pool)
    requires Inv(p) && Stuck(p) && p.queue.max >= 1 && |p.workers| >= 1
    ensures p.queue.jobs == [] && p.executed == multiset(p.accepted)
    ensures forall k | 0 <= k < |p.destroyers| :: HasAnswer(p.destroyers[k])
    ensures forall i | 0 <= i < |p.callers| :: Returned(p.callers[i])
  {
    assert p.taken + [] == p.taken;
    if Freed(p) {
      var g :| 0 <= g < |p.destroyers| && p.destroyers[g] == Gone;
      assert HasClosed(p.destroyers[g]) && Active(p.destroyers[g]);
      NobodyRuns(p.workers);
      forall k | 0 <= k < |p.destroyers| ensures HasAnswer(p.destroyers[k]) {
        StuckDestroyers(p, k);
      }
    } else {
      StuckAndOpen(p);
      assert p.workers[0] == Asleep;
      NobodyRuns(p.workers);
      forall k | 0 <= k < |p.destroyers| ensures HasAnswer(p.destroyers[k]) {
        StuckDestroyers(p, k);
        assert HasClosed(p.destroyers[k]) ==> SomeClosed(p.destroyers);
      }
    }
    forall i | 0 <= i < |p.callers| ensures Returned(p.callers[i]) {
      StuckCallers(p, i);
    }
  }

  // ---------- the freed pool ----------

  // No thread but the workers, which destroy joins, and the destroyer itself has business with the pool any more.
  predicate NobodyLeft(p: Pool, k: nat) {
    && (forall i | 0 <= i < |p.callers| :: Returned(p.callers[i]))
    && (forall l | 0 <= l < |p.destroyers| && l != k :: HasAnswer(p.destroyers[l]))
  }

  lemma FreedStays(p: Pool, a: Action)
    requires Freed(p) && Enabled(p, a)
    ensures Freed(Do(p, a))
  {
    var k :| 0 <= k < |p.destroyers| && p.destroyers[k] == Gone;
    assert Do(p, a).destroyers[k] == Gone;
  }

  // What can still happen once the pool is freed: a call of add_job that has not returned, or of destroy that has
  // not begun, goes on.
  lemma FreedMoves(p: Pool, a: Action)
    requires Inv(p) && Freed(p) && Enabled(p, a)
    ensures a.AddPass? || (a.ClosePass? && p.destroyers[a.i] == Asked)
  {
    var k :| 0 <= k < |p.destroyers| && p.destroyers[k] == Gone;
    assert Active(p.destroyers[k]) && AllExited(p.workers);
  }

  lemma {:induction false} WildStays(p: Pool, steps: seq<Action>, p': Pool)
    requires Run(p, steps, p') && p.wild
    ensures p'.wild
    decreases |steps|
  {
    hide Move, Freed;
    if steps != [] {
      WildStays(Do(p, steps[0]), steps[1..], p');
    }
  }

  lemma {:induction false} NotWildBefore(p: Pool, steps: seq<Action>, p': Pool)
    requires Run(p, steps, p') && !Freed(p')
    ensures !Freed(p) && p'.wild == p.wild
    decreases |steps|
  {
    hide Move, Freed;
    if steps != [] {
      NotWildBefore(Do(p, steps[0]), steps[1..], p');
      if Freed(p) {
        FreedStays(p, steps[0]);
      }
    }
  }

  lemma NotFreedAtJoin(p: Pool, k: nat)
    requires Inv(p) && Enabled(p, Join(k))
    ensures !Freed(p) && Freed(Do(p, Join(k)))
    ensures forall i | 0 <= i < |p.callers| :: !p.callers[i].Blocked?
    ensures forall l | 0 <= l < |p.destroyers| && l != k :: p.destroyers[l] == Asked || p.destroyers[l] == TurnedAway
  {
    assert Active(p.destroyers[k]);
    assert Do(p, Join(k)).destroyers[k] == Gone;
    forall l | 0 <= l < |p.destroyers| && l != k ensures p.destroyers[l] == Asked || p.destroyers[l] == TurnedAway {
      assert !Active(p.destroyers[l]);
    }
  }

  // Destroy joins its workers and then frees the pool.  Whatever has happened up to there and whatever happens
  // afterwards, the freed pool is touched only if at that moment some call of add_job had not returned or some other
  // call of destroy had not begun, and then it is touched once the run has come to its end.
  lemma FreedPoolTouched(p: Pool, before: seq<Action>, q: Pool, k: nat, after: seq<Action>, p': Pool)
    requires Initial(p) && Run(p, before, q) && Enabled(q, Join(k)) && Run(Do(q, Join(k)), after, p')
    ensures !q.wild
    ensures p'.wild ==> !NobodyLeft(q, k)
    ensures Stuck(p') ==> (p'.wild <==> !NobodyLeft(q, k))
  {
    hide Move, Inv, Freed;
    var q1 := Do(q, Join(k));
    InitialInv(p);
    RunKeepsInv(p, before, q);
    NotFreedAtJoin(q, k);
    NotWildBefore(p, before, q);
    StepKeepsInv(q, Join(k));
    if after == [] {
      if Stuck(q1) {
        JoinLeaves(q, k);
        AtRestNobodyLeft(q, q1, k);
      }
    } else {
      var a := after[0];
      WildStays(Do(q1, a), after[1..], p');
      FreedMoves(q1, a);
      JoinLeaves(q, k);
    }
  }

  lemma JoinLeaves(q: Pool, k: nat)
    requires Enabled(q, Join(k))
    ensures Do(q, Join(k)).callers == q.callers && Do(q, Join(k)).destroyers == q.destroyers[k := Gone]
  {
  }

  lemma AtRestNobodyLeft(q: Pool, q1: Pool, k: nat)
    requires Stuck(q1) && q1.callers == q.callers && k < |q.destroyers| && q1.destroyers == q.destroyers[k := Gone]
    requires forall i | 0 <= i < |q.callers| :: !q.callers[i].Blocked?
    requires forall l | 0 <= l < |q.destroyers| && l != k :: q.destroyers[l] == Asked || q.destroyers[l] == TurnedAway
    ensures NobodyLeft(q, k)
  {
    forall i | 0 <= i < |q.callers| ensures Returned(q.callers[i]) {
      StuckCallers(q1, i);
    }
    forall l | 0 <= l < |q.destroyers| && l != k ensures HasAnswer(q.destroyers[l]) {
      StuckDestroyers(q1, l);
    }
  }

  lemma {:induction false} RunStep(p: Pool, steps: seq<Action>, q: Pool, a: Action)
    requires Run(p, steps, q) && Enabled(q, a)
    ensures Run(p, steps + [a], Do(q, a))
    decreases |steps|
  {
    hide Move, Freed;
    var all := steps + [a];
    if steps == [] {
      assert all[0] == a && all[1..] == [];
    } else {
      assert all[0] == steps[0] && all[1..] == steps[1..] + [a];
      RunStep(Do(p, steps[0]), steps[1..], q, a);
    }
  }

  // One worker, room for one job, and three calls: the states of such a pool.
  function Small(jobs: seq<Job>, w: Worker, second: Caller, d: Destroyer, done: nat): Pool {
    Pool(Queue(1, jobs, d != Asked, HasClosed(d)), [w], [Accepted, second], [d], [7], if done >= 1 then [7] else [],
         if done >= 2 then multiset{7} else multiset{}, false)
  }

  lemma Then(p: Pool, steps: seq<Action>, q: Pool, a: Action, r: Pool) returns (steps': seq<Action>)
    requires Run(p, steps, q) && Enabled(q, a) && Do(q, a) == r
    ensures Run(p, steps', r)
  {
    hide Do;
    RunStep(p, steps, q, a);
    steps' := steps + [a];
  }

  lemma SmallFills() returns (p: Pool, before: seq<Action>)
    ensures Initial(p) && Run(p, before, Small([7], Ready, Blocked(8), Asked, 0))
  {
    hide Run;
    p := Pool(Queue(1, [], false, false), [Ready], [Calling(7), Calling(8)], [Asked], [], [], multiset{}, false);
    RunStarts(p);
    before := Then(p, [], p, AddPass(0), Small([7], Ready, Calling(8), Asked, 0));
    before := Then(p, before, Small([7], Ready, Calling(8), Asked, 0), AddPass(1),
        Small([7], Ready, Blocked(8), Asked, 0));
  }

  lemma RunStarts(p: Pool)
    ensures Run(p, [], p)
  {
  }

  lemma SmallSignals(q: Pool)
    requires q == Small([7], Ready, Blocked(8), Draining, 0)
    ensures Enabled(q, WorkPass(0, 0)) && Do(q, WorkPass(0, 0)) == Small([], Running(7), Roused(8), Alerted, 1)
  {
    assert q.destroyers[0] == Draining && SomeDraining(q.destroyers);
    assert Take(q.queue).1.Took? && Take(q.queue).1.signalEmpty && RightSignal(q, 0);
    assert [7][1..] == [] && [] + [7] == [7];
    assert RouseAll(q.callers) == [Accepted, Roused(8)];
  }

  lemma SmallTakes(q: Pool) returns (steps: seq<Action>)
    requires q == Small([7], Ready, Blocked(8), Asked, 0)
    ensures Run(q, steps, Small([], Running(7), Roused(8), Alerted, 1))
  {
    hide Run;
    RunStarts(q);
    steps := Then(q, [], q, ClosePass(0), Small([7], Ready, Blocked(8), Draining, 0));
    SmallSignals(Small([7], Ready, Blocked(8), Draining, 0));
    steps := Then(q, steps, Small([7], Ready, Blocked(8), Draining, 0), WorkPass(0, 0),
      Small([], Running(7), Roused(8), Alerted, 1));
  }

  lemma SmallCloses(q: Pool, begun: seq<Action>) returns (steps: seq<Action>)
    requires Run(q, begun, Small([], Running(7), Roused(8), Alerted, 1))
    ensures Run(q, steps, Small([], Ready, Roused(8), Closed, 2))
  {
    hide Run;
    steps := Then(q, begun, Small([], Running(7), Roused(8), Alerted, 1), RunJob(0),
        Small([], Ready, Roused(8), Alerted, 2));
    steps := Then(q, steps, Small([], Ready, Roused(8), Alerted, 2), ClosePass(0),
        Small([], Ready, Roused(8), Closed, 2));
  }

  lemma SmallExits(q: Pool, begun: seq<Action>) returns (steps: seq<Action>)
    requires Run(q, begun, Small([], Ready, Roused(8), Closed, 2))
    ensures Run(q, steps, Small([], Exited, Roused(8), Announced, 2))
  {
    hide Run;
    steps := Then(q, begun, Small([], Ready, Roused(8), Closed, 2), WorkPass(0, -1),
        Small([], Exited, Roused(8), Closed, 2));
    steps := Then(q, steps, Small([], Exited, Roused(8), Closed, 2), BroadcastNotEmpty(0),
      Small([], Exited, Roused(8), Announced, 2));
  }

  lemma SmallJoins(q: Pool, begun: seq<Action>) returns (steps: seq<Action>)
    requires Run(q, begun, Small([], Exited, Roused(8), Announced, 2))
    ensures Run(q, steps, Small([], Exited, Roused(8), Gone, 2))
  {
    hide Run;
    steps := Then(q, begun, Small([], Exited, Roused(8), Announced, 2), BroadcastNotFull(0),
      Small([], Exited, Roused(8), Joining, 2));
    steps := Then(q, steps, Small([], Exited, Roused(8), Joining, 2), Join(0), Small([], Exited, Roused(8), Gone, 2));
  }

  // A call of add_job that sleeps in a full queue when destroy begins is woken, but destroy does not wait for it.
  lemma SleepingCallerTouchesFreedPool() returns (p: Pool, q: Pool, p': Pool, before: seq<Action>, after: seq<Action>)
    ensures Initial(p) && Run(p, before, q) && Run(q, after, p')
    ensures q.callers == [Accepted, Blocked(8)] && q.destroyers == [Asked]
    ensures p'.wild && p'.destroyers == [Gone]
  {
    hide Run;
    p, before := SmallFills();
    q := Small([7], Ready, Blocked(8), Asked, 0);
    after := SmallTakes(q);
    after := SmallCloses(q, after);
    after := SmallExits(q, after);
    after := SmallJoins(q, after);
    var last := Small([], Exited, Roused(8), Gone, 2);
    assert last.destroyers[0] == Gone;
    p' := Small([], Exited, Refused, Gone, 2).(wild := true);
    after := Then(q, after, last, AddPass(1), p');
  }

  // ---------- runs end ----------

  // What a thread may still ask of the queue.
  const CALLER_BUDGET: Caller -> nat := (c: Caller) => if Returned(c) then 0 else 2
  const DESTROYER_BUDGET: Destroyer -> nat := (d: Destroyer) =>
    match d
    case Asked => 5
    case Draining => 4
    case Alerted => 4
    case Closed => 3
    case Announced => 2
    case Joining => 1
    case Gone => 0
    case TurnedAway => 0

  // How far a thread is from sleeping or ending.
  const WORKER_EFFORT: Worker -> nat :=
    (w: Worker) => if w.Running? then 2 else if w == Ready || w == Woken then 1 else 0
  const CALLER_EFFORT: Caller -> nat := (c: Caller) => if c.Calling? || c.Roused? then 1 else 0
  const DESTROYER_EFFORT: Destroyer -> nat := (d: Destroyer) => if d == Alerted then 1 else 0

  function Budget(p: Pool): nat {
    Sum(CALLER_BUDGET, p.callers) + |p.queue.jobs| + Sum(DESTROYER_BUDGET, p.destroyers)
  }

  function Effort(p: Pool): nat {
    Sum(WORKER_EFFORT, p.workers) + Sum(CALLER_EFFORT, p.callers) + Sum(DESTROYER_EFFORT, p.destroyers)
  }

  ghost predicate Less(p: Pool, q: Pool) {
    Budget(p) < Budget(q) || (Budget(p) == Budget(q) && Effort(p) < Effort(q))
  }

  lemma AddProgress(p: Pool, i: nat)
    requires Enabled(p, AddPass(i))
    ensures Less(DoAdd(p, i), p)
  {
    hide Sum;
    var c := DoAdd(p, i).callers[i];
    SumUpdate(CALLER_BUDGET, p.callers, i, c);
    SumUpdate(CALLER_EFFORT, p.callers, i, c);
  }

  lemma WorkProgress(p: Pool, i: nat, whom: int)
    requires Enabled(p, WorkPass(i, whom))
    ensures Less(DoWork(p, i, whom), p)
  {
    hide Sum;
    SumUpdate(WORKER_EFFORT, p.workers, i, DoWork(p, i, whom).workers[i]);
    SumSame(CALLER_BUDGET, p.callers, RouseAll(p.callers));
    if whom >= 0 {
      SumUpdate(DESTROYER_BUDGET, p.destroyers, whom, Alerted);
    }
  }

  lemma CloseProgress(p: Pool, i: nat)
    requires Enabled(p, ClosePass(i))
    ensures Less(DoClose(p, i), p)
  {
    hide Sum;
    var d := DoClose(p, i).destroyers[i];
    SumUpdate(DESTROYER_BUDGET, p.destroyers, i, d);
    SumUpdate(DESTROYER_EFFORT, p.destroyers, i, d);
  }

  // Every step but a spurious wake-up uses something up.
  lemma Progress(p: Pool, a: Action)
    requires Enabled(p, a) && !IsSpurious(a)
    ensures Less(Move(p, a), p)
  {
    hide Sum;
    match a
    case AddPass(i) => AddProgress(p, i);
    case WorkPass(i, whom) => WorkProgress(p, i, whom);
    case RunJob(i) => SumUpdate(WORKER_EFFORT, p.workers, i, Ready);
    case ClosePass(i) => CloseProgress(p, i);
    case BroadcastNotEmpty(i) => SumUpdate(DESTROYER_BUDGET, p.destroyers, i, Announced);
    case BroadcastNotFull(i) =>
      SumUpdate(DESTROYER_BUDGET, p.destroyers, i, Joining);
      SumSame(CALLER_BUDGET, p.callers, RouseAll(p.callers));
    case Join(i) => SumUpdate(DESTROYER_BUDGET, p.destroyers, i, Gone);
  }

  function Cap(p: Pool): nat {
    2 * |p.workers| + |p.callers| + |p.destroyers|
  }

  function Fuel(p: Pool): nat {
    Budget(p) * (Cap(p) + 1) + Effort(p)
  }

  lemma EffortIsCapped(p: Pool)
    ensures Effort(p) <= Cap(p)
  {
    hide Sum;
    SumBound(WORKER_EFFORT, p.workers, 2);
    SumBound(CALLER_EFFORT, p.callers, 1);
    SumBound(DESTROYER_EFFORT, p.destroyers, 1);
  }

  lemma StepKeepsThreads(p: Pool, a: Action)
    requires Enabled(p, a)
    ensures var q := Move(p, a);
            && |q.workers| == |p.workers| && |q.callers| == |p.callers| && |q.destroyers| == |p.destroyers|
            && q.queue.max == p.queue.max
  {
  }

  lemma LessFuel(b: nat, b': nat, e: nat, e': nat, cap: nat)
    requires e' <= cap && (b' < b || (b' == b && e' < e))
    ensures b' * (cap + 1) + e' < b * (cap + 1) + e
  {
    if b' < b {
      assert (b' + 1) * (cap + 1) <= b * (cap + 1);
    }
  }

  lemma FuelDecreases(p: Pool, a: Action)
    requires Enabled(p, a) && !IsSpurious(a)
    ensures Fuel(Do(p, a)) < Fuel(p)
  {
    hide Move, Sum;
    var q := Move(p, a);
    Progress(p, a);
    StepKeepsThreads(p, a);
    EffortIsCapped(q);
    LessFuel(Budget(p), Budget(q), Effort(p), Effort(q), Cap(p));
  }

  // Without spurious wake-ups a run has at most Fuel(p) steps.
  lemma {:induction false} RunsEnd(p: Pool, steps: seq<Action>, p': Pool)
    requires Run(p, steps, p') && forall a | a in steps :: !IsSpurious(a)
    ensures |steps| + Fuel(p') <= Fuel(p)
    decreases |steps|
  {
    hide Do, Fuel;
    if steps != [] {
      assert steps[0] in steps;
      FuelDecreases(p, steps[0]);
      RunsEnd(Do(p, steps[0]), steps[1..], p');
    }
  }

  lemma {:induction false} RunKeepsThreads(p: Pool, steps: seq<Action>, p': Pool)
    requires Run(p, steps, p')
    ensures |p'.workers| == |p.workers| && p'.queue.max == p.queue.max
    decreases |steps|
  {
    hide Move, Freed;
    if steps != [] {
      StepKeepsThreads(p, steps[0]);
      RunKeepsThreads(Do(p, steps[0]), steps[1..], p');
    }
  }

  // The pool does its work: every run that is carried on until nothing can move comes to that point, and then every
  // accepted job has been run exactly once and every destroy has returned.
  lemma EveryAcceptedJobIsRun(p: Pool, steps: seq<Action>, p': Pool)
    requires Initial(p) && p.queue.max >= 1 && |p.workers| >= 1
    requires Run(p, steps, p') && forall a | a in steps :: !IsSpurious(a)
    ensures |steps| <= Fuel(p)
    ensures Stuck(p') ==>
              && p'.executed == multiset(p'.accepted) && p'.queue.jobs == []
              && (forall k | 0 <= k < |p'.destroyers| :: HasAnswer(p'.destroyers[k]))
              && (forall i | 0 <= i < |p'.callers| :: Returned(p'.callers[i]))
  {
    hide Run, Stuck, Inv;
    InitialInv(p);
    RunKeepsInv(p, steps, p');
    RunsEnd(p, steps, p');
    RunKeepsThreads(p, steps, p');
    if Stuck(p') {
      NoDeadlock(p');
    }
  }

  // ---------- pools that threadpool_init accepts as well ----------

  ghost predicate NobodyServed(p: Pool) {
    && p.queue.max == 0 && p.destroyers == [] && p.accepted == [] && p.queue.jobs == []
    && !p.queue.queueClose && !p.queue.poolClose && forall i | 0 <= i < |p.callers| :: !Returned(p.callers[i])
  }

  lemma {:induction false} StaysUnserved(p: Pool, steps: seq<Action>, p': Pool)
    requires NobodyServed(p) && Run(p, steps, p')
    ensures NobodyServed(p')
    decreases |steps|
  {
    if steps != [] {
      assert NobodyServed(Do(p, steps[0])) by { hide WakeAll; }
      StaysUnserved(Do(p, steps[0]), steps[1..], p');
    }
  }

  // With room for no job, no call of add_job ever returns unless the pool is destroyed.
  lemma NoRoomServesNobody(p: Pool, steps: seq<Action>, p': Pool)
    requires Initial(p) && p.queue.max == 0 && p.destroyers == [] && Run(p, steps, p')
    ensures p'.accepted == [] && |p'.callers| == |p.callers|
    ensures forall i | 0 <= i < |p'.callers| :: !Returned(p'.callers[i])
  {
    hide Move, Freed;
    StaysUnserved(p, steps, p');
    CallersStay(p, steps, p');
  }

  lemma {:induction false} CallersStay(p: Pool, steps: seq<Action>, p': Pool)
    requires Run(p, steps, p')
    ensures |p'.callers| == |p.callers|
    decreases |steps|
  {
    if steps != [] {
      CallersStay(Do(p, steps[0]), steps[1..], p');
    }
  }

  lemma {:induction false} NobodyTakes(p: Pool, steps: seq<Action>, p': Pool)
    requires p.workers == [] && Run(p, steps, p')
    ensures p'.taken == p.taken && p'.executed == p.executed
    decreases |steps|
  {
    if steps != [] {
      NobodyTakes(Do(p, steps[0]), steps[1..], p');
    }
  }

  // With no worker, no job is ever run; once one has been accepted no destroy gets past waiting for the queue to empty.
  lemma NoWorkerRunsNothing(p: Pool, steps: seq<Action>, p': Pool)
    requires Initial(p) && p.workers == [] && Run(p, steps, p')
    ensures p'.executed == multiset{} && p'.queue.jobs == p'.accepted
    ensures p'.accepted != [] ==> forall k | 0 <= k < |p'.destroyers| :: !HasClosed(p'.destroyers[k])
  {
    NobodyTakes(p, steps, p');
    hide Run;
    InitialInv(p);
    RunKeepsInv(p, steps, p');
    assert [] + p'.queue.jobs == p'.queue.jobs;
  }
}
