// What a destroy means for callers of threadpool_add_job, from the moment it has passed its first test.
module PoolClosings {
  import opened ThreadPools
  import opened PoolRuns

  // Past the test at the top of threadpool_destroy.
  predicate Begun(d: Destroyer) {
    d != Asked && d != TurnedAway
  }

  // What can still become of a caller then: it is refused, or woken, and nothing else.
  predicate Later(c: Caller, d: Caller) {
    d == c || (!Returned(c) && (d == Refused || d == Roused(c.job)))
  }

  ghost predicate AllLater(cs: seq<Caller>, ds: seq<Caller>) {
    |cs| == |ds| && forall i | 0 <= i < |cs| :: Later(cs[i], ds[i])
  }

  lemma BegunCloses(p: Pool, k: nat)
    requires Inv(p) && k < |p.destroyers| && Begun(p.destroyers[k])
    ensures p.queue.queueClose
  {
    assert Active(p.destroyers[k]);
  }

  lemma ClosedStep(p: Pool, a: Action)
    requires p.queue.queueClose && Enabled(p, a)
    ensures var q := Do(p, a);
            && q.queue.queueClose && q.accepted == p.accepted && AllLater(p.callers, q.callers)
            && (a.AddPass? ==> q.callers[a.i] == Refused)
  {
    hide WakeAll;
  }

  lemma LaterStill(cs: seq<Caller>, ds: seq<Caller>, es: seq<Caller>)
    requires AllLater(cs, ds) && AllLater(ds, es)
    ensures AllLater(cs, es)
    ensures forall i | 0 <= i < |es| && ds[i] == Refused :: es[i] == Refused
  {
    forall i | 0 <= i < |cs| ensures Later(cs[i], es[i]) {
      assert Later(cs[i], ds[i]) && Later(ds[i], es[i]);
    }
  }

  lemma LaterAtOnce(cs: seq<Caller>)
    ensures AllLater(cs, cs)
  {
  }

  lemma {:induction false} ClosedRun(p: Pool, steps: seq<Action>, p': Pool)
    requires p.queue.queueClose && Run(p, steps, p')
    ensures p'.queue.queueClose && p'.accepted == p.accepted && AllLater(p.callers, p'.callers)
    ensures forall i: nat | AddPass(i) in steps :: i < |p'.callers| && p'.callers[i] == Refused
    decreases |steps|
  {
    hide Do, Enabled, AllLater;
    if steps == [] {
      LaterAtOnce(p.callers);
    } else {
      var a, rest := steps[0], steps[1..];
      var q := Do(p, a);
      ClosedStep(p, a);
      ClosedRun(q, rest, p');
      LaterStill(p.callers, q.callers, p'.callers);
      SameMany(q.callers, p'.callers);
      AddPassIsThere(p, a);
      SameMany(p.callers, q.callers);
      forall i: nat | AddPass(i) in steps ensures i < |p'.callers| && p'.callers[i] == Refused {
        if AddPass(i) !in rest {
          assert a == AddPass(i);
        }
      }
    }
  }

  lemma SameMany(cs: seq<Caller>, ds: seq<Caller>)
    requires AllLater(cs, ds)
    ensures |cs| == |ds|
  {
  }

  lemma AddPassIsThere(p: Pool, a: Action)
    requires Enabled(p, a)
    ensures a.AddPass? ==> a.i < |p.callers|
  {
  }

  // Once some destroy is past its first test no job is accepted any more: every call of add_job that makes a pass from
  // then on is refused, none falls asleep, and one that was asleep can only be woken.
  lemma ClosedToNewJobs(p: Pool, before: seq<Action>, q: Pool, k: nat, after: seq<Action>, p': Pool)
    requires Initial(p) && Run(p, before, q) && k < |q.destroyers| && Begun(q.destroyers[k]) && Run(q, after, p')
    ensures p'.accepted == q.accepted && |p'.callers| == |q.callers|
    ensures forall i: nat | AddPass(i) in after :: i < |p'.callers| && p'.callers[i] == Refused
    ensures forall i | 0 <= i < |p'.callers| ::
              && (p'.callers[i].Blocked? ==> q.callers[i] == p'.callers[i])
              && (p'.callers[i] == Accepted <==> q.callers[i] == Accepted)
  {
    hide Run, Inv;
    InitialInv(p);
    RunKeepsInv(p, before, q);
    BegunCloses(q, k);
    ClosedRun(q, after, p');
    forall i | 0 <= i < |p'.callers|
      ensures p'.callers[i].Blocked? ==> q.callers[i] == p'.callers[i]
      ensures p'.callers[i] == Accepted <==> q.callers[i] == Accepted
    {
      assert Later(q.callers[i], p'.callers[i]);
    }
  }

  // ---------- until then ----------

  ghost predicate AllAsked(p: Pool) {
    forall k | 0 <= k < |p.destroyers| :: p.destroyers[k] == Asked
  }

  ghost predicate NoneRefused(p: Pool) {
    forall i | 0 <= i < |p.callers| :: p.callers[i] != Refused
  }

  lemma AskedBefore(p: Pool, a: Action)
    requires Enabled(p, a) && AllAsked(Do(p, a))
    ensures AllAsked(p)
  {
    var q := Do(p, a);
    assert |q.destroyers| == |p.destroyers| by { StepKeepsThreads(p, a); }
    hide Add, Take, WakeAll, RouseAll;
    forall k | 0 <= k < |p.destroyers| ensures p.destroyers[k] == Asked {
      assert q.destroyers[k] == Asked;
    }
  }

  lemma OpenStep(p: Pool, a: Action)
    requires Inv(p) && AllAsked(p) && NoneRefused(p) && Enabled(p, a)
    ensures NoneRefused(Do(p, a))
  {
    assert !p.queue.queueClose && !p.queue.poolClose;
    hide Inv, WakeAll, Take, Close, Drained;
  }

  lemma {:induction false} AskedAtFirst(p: Pool, steps: seq<Action>, p': Pool)
    requires Run(p, steps, p') && AllAsked(p')
    ensures AllAsked(p)
    decreases |steps|
  {
    hide Do, AllAsked, Enabled;
    if steps != [] {
      AskedAtFirst(Do(p, steps[0]), steps[1..], p');
      AskedBefore(p, steps[0]);
    }
  }

  lemma {:induction false} OpenRun(p: Pool, steps: seq<Action>, p': Pool)
    requires Inv(p) && NoneRefused(p) && Run(p, steps, p') && AllAsked(p')
    ensures NoneRefused(p')
    decreases |steps|
  {
    hide Do, AllAsked, Enabled, Inv, NoneRefused;
    if steps != [] {
      AskedAtFirst(p, steps, p');
      OpenStep(p, steps[0]);
      StepKeepsInv(p, steps[0]);
      OpenRun(Do(p, steps[0]), steps[1..], p');
    }
  }

  // As long as no destroy has begun, no call of add_job is refused.
  lemma OpenUntilDestroyed(p: Pool, steps: seq<Action>, p': Pool)
    requires Initial(p) && Run(p, steps, p') && forall k | 0 <= k < |p'.destroyers| :: p'.destroyers[k] == Asked
    ensures forall i | 0 <= i < |p'.callers| :: p'.callers[i] != Refused
  {
    hide Run, Inv;
    InitialInv(p);
    OpenRun(p, steps, p');
  }
}
