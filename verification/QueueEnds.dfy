// Runs of the message queue come to an end: a call takes at most five steps.
module QueueEnds {
  import opened Sums
  import opened QueueRuns

  const SENDER_LEFT: Sender -> nat := (s: Sender) =>
    if s.Sending? then 5 else if s.MayTake? then 4 else if s.Holding? then 3 else if s.Filled? then 2
    else if s.Linked? then 1 else 0
  const RECEIVER_LEFT: Receiver -> nat := (r: Receiver) =>
    if r.Receiving? then 5 else if r.MayRemove? then 4 else if r.Removed? then 3 else if r.Copied? then 2
    else if r.Freed? then 1 else 0

  function Fuel(q: Queue): nat {
    Sum(SENDER_LEFT, q.senders) + Sum(RECEIVER_LEFT, q.receivers)
  }

  lemma SendUsesFuel(q: Queue, a: Action)
    requires Enabled(q, a) && OfSender(a)
    ensures Fuel(DoSend(q, a)) < Fuel(q)
  {
    hide Sum, TextAt, Put;
    SumUpdate(SENDER_LEFT, q.senders, a.i, DoSend(q, a).senders[a.i]);
  }

  lemma RecvUsesFuel(q: Queue, a: Action)
    requires Enabled(q, a) && !OfSender(a)
    ensures Fuel(DoRecv(q, a)) < Fuel(q)
  {
    hide Sum, TextAt, Put;
    SumUpdate(RECEIVER_LEFT, q.receivers, a.i, DoRecv(q, a).receivers[a.i]);
  }

  lemma StepUsesFuel(q: Queue, a: Action)
    requires Enabled(q, a)
    ensures Fuel(Do(q, a)) < Fuel(q)
  {
    hide Fuel, DoSend, DoRecv;
    if OfSender(a) {
      SendUsesFuel(q, a);
    } else {
      RecvUsesFuel(q, a);
    }
  }

  lemma {:induction false} FuelRunsOut(q: Queue, steps: seq<Action>, q': Queue)
    requires Run(q, steps, q')
    ensures |steps| + Fuel(q') <= Fuel(q)
    decreases |steps|
  {
    hide Do, Fuel;
    if steps != [] {
      StepUsesFuel(q, steps[0]);
      FuelRunsOut(Do(q, steps[0]), steps[1..], q');
    }
  }

  // At most five steps a call, timeouts included.
  lemma RunsEnd(q: Queue, steps: seq<Action>, q': Queue)
    requires Initial(q) && Run(q, steps, q')
    ensures |steps| <= 5 * (|q.senders| + |q.receivers|)
  {
    hide Sum;
    FuelRunsOut(q, steps, q');
    SumBound(SENDER_LEFT, q.senders, 5);
    SumBound(RECEIVER_LEFT, q.receivers, 5);
  }

  // From every state the queue can be run on until no call can move.
  lemma {:induction false} ComesToRest(q: Queue) returns (steps: seq<Action>, q': Queue)
    ensures Run(q, steps, q') && Stuck(q')
    decreases Fuel(q)
  {
    hide Do, Fuel, Enabled;
    if Stuck(q) {
      steps, q' := [], q;
    } else {
      var a :| Enabled(q, a) && !IsTimeout(a);
      StepUsesFuel(q, a);
      var rest;
      rest, q' := ComesToRest(Do(q, a));
      steps := [a] + rest;
      assert steps[0] == a && steps[1..] == rest;
    }
  }

  // So every run reaches the point the accounts at rest are about.
  lemma EveryRunComesToRest(q: Queue, steps: seq<Action>, q1: Queue) returns (more: seq<Action>, q2: Queue)
    requires Initial(q) && Run(q, steps, q1)
    ensures Run(q1, more, q2) && Stuck(q2) && |steps| + |more| <= 5 * (|q.senders| + |q.receivers|)
    ensures |q2.free| == q2.sendPermits + q2.leaked && |q2.used| == q2.recvPermits
  {
    hide Run, Stuck, Inv, Sum;
    more, q2 := ComesToRest(q1);
    InitialInv(q);
    RunKeepsInv(q, steps, q1);
    RunKeepsInv(q1, more, q2);
    AtRest(q2);
    FuelRunsOut(q, steps, q1);
    FuelRunsOut(q1, more, q2);
    SumBound(SENDER_LEFT, q.senders, 5);
    SumBound(RECEIVER_LEFT, q.receivers, 5);
  }
}
