// Blocking calls into an apartment: MsOS_SendMessage and MsOS_PostMessage of pgos/MsOS_queue.c against the thread of
// pgos/MsOS_control.c.  A caller leaves its message on the queue with the addresses of a result and a semaphore on
// its own stack and sleeps on the semaphore; the thread answers messages one by one.
module Rendezvous {
  import opened Sums

  type Word = n: nat | n < 0x1_0000_0000
  const NO_RESULT: Word := 0xffff_ffff

  datatype Request = Request(id: Word, parameter1: Word, parameter2: Word)

  // The message of caller i: pResult and ReturnSemaphore are that call's own.
  datatype Message = Message(request: Request, blocking: bool, caller: nat)

  // A call.  place is the message's position in the queue's order; result and permits are the call's two variables,
  // which are gone once it has returned.
  datatype Caller =
    | Calling(request: Request, blocking: bool)
    | Waiting(request: Request, place: nat, result: Word, permits: nat)
    | Returned(request: Request, place: nat, result: Word)
    | Posted(request: Request, place: nat)

  datatype Server =
    | Idle | Received(message: Message) | Handled(message: Message, result: Word) | Answered(message: Message)

  // wild: the thread has written to a result or released a semaphore that was no longer there.
  datatype Apartment = Apartment(
    capacity: nat, queue: seq<Message>, callers: seq<Caller>, server: Server, wild: bool,
    linked: seq<Message>, handled: seq<(Message, Word)>)

  datatype Action = Send(i: nat) | Receive | Handle(result: Word) | WriteResult | Release | Wake(i: nat)

  predicate Enabled(s: Apartment, a: Action) {
    match a
    case Send(i) => i < |s.callers| && s.callers[i].Calling? && |s.queue| < s.capacity
    case Receive => s.server.Idle? && s.queue != []
    case Handle(_) => s.server.Received?
    case WriteResult => s.server.Handled?
    case Release => s.server.Answered?
    case Wake(i) => i < |s.callers| && s.callers[i].Waiting? && s.callers[i].permits > 0
  }

  predicate StillThere(s: Apartment, i: nat) {
    i < |s.callers| && s.callers[i].Waiting?
  }

  function Do(s: Apartment, a: Action): Apartment
    requires Enabled(s, a)
  {
    match a
    case Send(i) =>
      var c := s.callers[i];
      var m := Message(c.request, c.blocking, i);
      s.(queue := s.queue + [m], linked := s.linked + [m],
         callers := s.callers[i := if c.blocking then Waiting(c.request, |s.linked|, NO_RESULT, 0)
                                   else Posted(c.request, |s.linked|)])
    case Receive => s.(queue := s.queue[1..], server := Received(s.queue[0]))
    case Handle(result) =>
      s.(server := Handled(s.server.message, result), handled := s.handled + [(s.server.message, result)])
    case WriteResult =>
      var m := s.server.message;
      var s1 := s.(server := Answered(m));
      if !m.blocking then s1
      else if !StillThere(s, m.caller) then s1.(wild := true)
      else
        var c := s.callers[m.caller];
        s1.(callers := s.callers[m.caller := Waiting(c.request, c.place, s.server.result, c.permits)])
    case Release =>
      var m := s.server.message;
      var s1 := s.(server := Idle);
      if !m.blocking then s1
      else if !StillThere(s, m.caller) then s1.(wild := true)
      else
        var c := s.callers[m.caller];
        s1.(callers := s.callers[m.caller := Waiting(c.request, c.place, c.result, c.permits + 1)])
    case Wake(i) =>
      var c := s.callers[i];
      s.(callers := s.callers[i := Returned(c.request, c.place, c.result)])
  }

  ghost predicate Run(s: Apartment, steps: seq<Action>, s': Apartment)
    decreases |steps|
  {
    if steps == [] then s' == s
    else Enabled(s, steps[0]) && Run(Do(s, steps[0]), steps[1..], s')
  }

  predicate Initial(s: Apartment) {
    && s.queue == [] && s.linked == [] && s.handled == [] && s.server == Idle && !s.wild
    && forall i | 0 <= i < |s.callers| :: s.callers[i].Calling?
  }

  // ---------- the invariant ----------

  // The messages not yet handled, oldest first.
  function Pending(s: Apartment): seq<Message> {
    if s.server.Received? then [s.server.message] + s.queue else s.queue
  }

  function Asked(handled: seq<(Message, Word)>): (r: seq<Message>)
    ensures |r| == |handled| && forall k | 0 <= k < |r| :: r[k] == handled[k].0
  {
    seq(|handled|, k requires 0 <= k < |handled| => handled[k].0)
  }

  // Messages are handled in the order they were linked, and none is skipped.
  ghost predicate Order(s: Apartment) {
    && s.linked == Asked(s.handled) + Pending(s)
    && (s.server.Handled? ==> s.handled != [] && s.handled[|s.handled| - 1] == (s.server.message, s.server.result))
    && (s.server.Answered? ==> s.handled != [] && s.handled[|s.handled| - 1].0 == s.server.message)
  }

  // Each message is one caller's.
  ghost predicate Owners(s: Apartment) {
    forall k | 0 <= k < |s.linked| :: Owns(s, k, s.linked[k])
  }

  ghost predicate Owns(s: Apartment, k: nat, m: Message) {
    && m.caller < |s.callers|
    && var c := s.callers[m.caller];
       !c.Calling? && c.place == k && m.request == c.request && (m.blocking <==> c.Waiting? || c.Returned?)
  }

  // The message in place k has been handled; its result has been written; its semaphore has been released.
  ghost predicate HasResult(s: Apartment, k: nat) {
    k < |s.handled| && (k == |s.handled| - 1 ==> !s.server.Handled?)
  }

  ghost predicate HasRelease(s: Apartment, k: nat) {
    HasResult(s, k) && (k == |s.handled| - 1 ==> !s.server.Answered?)
  }

  ghost predicate CallerInv(s: Apartment, i: nat, c: Caller) {
    match c
    case Calling(_, _) => true
    case Posted(_, k) => k < |s.linked| && s.linked[k].caller == i
    case Waiting(_, k, result, permits) =>
      && k < |s.linked| && s.linked[k].caller == i
      && result == (if HasResult(s, k) then s.handled[k].1 else NO_RESULT)
      && permits == (if HasRelease(s, k) then 1 else 0)
    case Returned(_, k, result) =>
      k < |s.linked| && s.linked[k].caller == i && HasRelease(s, k) && result == s.handled[k].1
  }

  ghost predicate Inv(s: Apartment) {
    Order(s) && Owners(s) && !s.wild && forall i | 0 <= i < |s.callers| :: CallerInv(s, i, s.callers[i])
  }

  lemma OrderKept(s: Apartment, a: Action)
    requires Order(s) && Enabled(s, a)
    ensures Order(Do(s, a))
  {
    var s' := Do(s, a);
    var asked := Asked(s.handled);
    match a
    case Send(_) =>
      assert asked + Pending(s') == asked + Pending(s) + [s'.linked[|s.linked|]];
    case Receive =>
      assert Pending(s') == Pending(s);
    case Handle(result) =>
      assert Asked(s'.handled) == asked + [s.server.message];
      assert asked + ([s.server.message] + s.queue) == asked + [s.server.message] + s.queue;
    case _ =>
  }

  lemma OwnersKept(s: Apartment, a: Action)
    requires Owners(s) && Enabled(s, a)
    ensures Owners(Do(s, a))
  {
    var s' := Do(s, a);
    forall k | 0 <= k < |s'.linked| ensures Owns(s', k, s'.linked[k]) {
      assert k < |s.linked| ==> Owns(s, k, s.linked[k]);
    }
  }

  // While the thread has a caller's answer in hand, that caller is still waiting.
  lemma CallerIsThere(s: Apartment)
    requires Inv(s) && (s.server.Handled? || s.server.Answered?) && s.server.message.blocking
    ensures var m := s.server.message;
            StillThere(s, m.caller) && s.callers[m.caller].place == |s.handled| - 1 && s.callers[m.caller].permits == 0
  {
    var k := |s.handled| - 1;
    assert s.handled[k].0 == s.linked[k] == s.server.message;
    assert Owns(s, k, s.linked[k]);
    assert CallerInv(s, s.server.message.caller, s.callers[s.server.message.caller]);
  }

  lemma CallerKeptBySend(s: Apartment, i: nat, j: nat)
    requires j < |s.callers| && CallerInv(s, j, s.callers[j]) && |s.handled| <= |s.linked| && Enabled(s, Send(i))
    ensures CallerInv(Do(s, Send(i)), j, Do(s, Send(i)).callers[j])
  {
  }

  lemma CallerKeptByReceive(s: Apartment, j: nat)
    requires j < |s.callers| && CallerInv(s, j, s.callers[j]) && Enabled(s, Receive)
    ensures CallerInv(Do(s, Receive), j, Do(s, Receive).callers[j])
  {
  }

  lemma CallerKeptByHandle(s: Apartment, result: Word, j: nat)
    requires j < |s.callers| && CallerInv(s, j, s.callers[j]) && Enabled(s, Handle(result))
    ensures CallerInv(Do(s, Handle(result)), j, Do(s, Handle(result)).callers[j])
  {
  }

  lemma CallerKeptByWake(s: Apartment, i: nat, j: nat)
    requires j < |s.callers| && CallerInv(s, j, s.callers[j]) && Enabled(s, Wake(i))
    ensures CallerInv(Do(s, Wake(i)), j, Do(s, Wake(i)).callers[j])
  {
  }

  lemma CallerKeptByAnswer(s: Apartment, a: Action, j: nat)
    requires Inv(s) && Enabled(s, a) && (a.WriteResult? || a.Release?) && j < |s.callers|
    ensures CallerInv(Do(s, a), j, Do(s, a).callers[j])
  {
    var m := s.server.message;
    assert CallerInv(s, j, s.callers[j]);
    if m.blocking {
      CallerIsThere(s);
    } else if !s.callers[j].Calling? && s.callers[j].place == |s.handled| - 1 {
      assert Owns(s, |s.handled| - 1, s.linked[|s.handled| - 1]);
    }
    hide Owners;
  }

  lemma NeverWild(s: Apartment, a: Action)
    requires Inv(s) && Enabled(s, a)
    ensures !Do(s, a).wild
  {
    if (a.WriteResult? || a.Release?) && s.server.message.blocking {
      CallerIsThere(s);
    }
  }

  lemma StepKeepsInv(s: Apartment, a: Action)
    requires Inv(s) && Enabled(s, a)
    ensures Inv(Do(s, a))
  {
    var s' := Do(s, a);
    OrderKept(s, a);
    OwnersKept(s, a);
    NeverWild(s, a);
    forall j | 0 <= j < |s'.callers| ensures CallerInv(s', j, s'.callers[j]) {
      hide Order, Owners, CallerInv;
      match a
      case Send(i) => CallerKeptBySend(s, i, j);
      case Receive => CallerKeptByReceive(s, j);
      case Handle(r) => CallerKeptByHandle(s, r, j);
      case Wake(i) => CallerKeptByWake(s, i, j);
      case _ => CallerKeptByAnswer(s, a, j);
    }
  }

  lemma {:induction false} RunKeepsInv(s: Apartment, steps: seq<Action>, s': Apartment)
    requires Inv(s) && Run(s, steps, s')
    ensures Inv(s')
    decreases |steps|
  {
    hide Inv, Do;
    if steps != [] {
      StepKeepsInv(s, steps[0]);
      RunKeepsInv(Do(s, steps[0]), steps[1..], s');
    }
  }

  // ---------- what every run keeps ----------

  // Every blocking call that returns gives back what the handler answered to that very message, and no two calls
  // share a message.  The thread never touches a result or a semaphore whose call is over.
  lemma CallsGetTheirOwnAnswer(s: Apartment, steps: seq<Action>, s': Apartment, i: nat)
    requires Initial(s) && Run(s, steps, s') && i < |s'.callers| && s'.callers[i].Returned?
    ensures !s'.wild
    ensures var c := s'.callers[i];
            c.place < |s'.handled| && s'.handled[c.place] == (Message(c.request, true, i), c.result)
    ensures forall k | 0 <= k < |s'.handled| && s'.handled[k].0.caller == i :: k == s'.callers[i].place
  {
    RunKeepsInv(s, steps, s');
    var c := s'.callers[i];
    assert CallerInv(s', i, c);
    assert s'.linked[c.place] == s'.handled[c.place].0;
    assert Owns(s', c.place, s'.linked[c.place]);
    forall k | 0 <= k < |s'.handled| && s'.handled[k].0.caller == i ensures k == c.place {
      assert s'.linked[k] == s'.handled[k].0;
      assert Owns(s', k, s'.linked[k]);
    }
  }

  // Messages are handled in the order they were linked, each at most once, and the rest are still to come.
  lemma HandledInOrder(s: Apartment, steps: seq<Action>, s': Apartment)
    requires Initial(s) && Run(s, steps, s')
    ensures Asked(s'.handled) + Pending(s') == s'.linked
    ensures forall k, l | 0 <= k < l < |s'.linked| :: s'.linked[k].caller != s'.linked[l].caller
  {
    RunKeepsInv(s, steps, s');
    forall k, l | 0 <= k < l < |s'.linked| ensures s'.linked[k].caller != s'.linked[l].caller {
      assert Owns(s', k, s'.linked[k]) && Owns(s', l, s'.linked[l]);
    }
  }

  ghost predicate Stuck(s: Apartment) {
    forall a: Action :: !Enabled(s, a)
  }

  // No call hangs: when nothing can move, every call has returned.
  lemma EveryCallReturns(s: Apartment, steps: seq<Action>, s': Apartment)
    requires Initial(s) && Run(s, steps, s') && s'.capacity > 0 && Stuck(s')
    ensures forall i | 0 <= i < |s'.callers| :: s'.callers[i].Returned? || s'.callers[i].Posted?
    ensures Asked(s'.handled) == s'.linked
  {
    RunKeepsInv(s, steps, s');
    assert s'.server.Idle? && s'.queue == [] by {
      assert !Enabled(s', Receive) && !Enabled(s', Handle(0)) && !Enabled(s', WriteResult) && !Enabled(s', Release);
    }
    assert Asked(s'.handled) + [] == Asked(s'.handled);
    forall i | 0 <= i < |s'.callers| ensures s'.callers[i].Returned? || s'.callers[i].Posted? {
      assert !Enabled(s', Send(i)) && !Enabled(s', Wake(i));
      assert CallerInv(s', i, s'.callers[i]);
    }
  }

  // ---------- runs end ----------

  // The steps a call and the message it leaves still need, once the message is on the queue and before.
  const CALLER_FUEL: Caller -> nat := (c: Caller) => if c.Calling? then 6 else if c.Waiting? then 1 else 0

  function ServerFuel(v: Server): nat {
    match v
    case Idle => 0
    case Received(_) => 3
    case Handled(_, _) => 2
    case Answered(_) => 1
  }

  function Fuel(s: Apartment): nat {
    Sum(CALLER_FUEL, s.callers) + 4 * |s.queue| + ServerFuel(s.server)
  }

  lemma FuelDecreases(s: Apartment, a: Action)
    requires Enabled(s, a)
    ensures Fuel(Do(s, a)) < Fuel(s)
  {
    hide Sum;
    match a
    case Send(i) => SumUpdate(CALLER_FUEL, s.callers, i, Do(s, a).callers[i]);
    case Wake(i) => SumUpdate(CALLER_FUEL, s.callers, i, Do(s, a).callers[i]);
    case WriteResult =>
      var i := s.server.message.caller;
      if StillThere(s, i) { SumUpdate(CALLER_FUEL, s.callers, i, Do(s, a).callers[i]); }
    case Release =>
      var i := s.server.message.caller;
      if StillThere(s, i) { SumUpdate(CALLER_FUEL, s.callers, i, Do(s, a).callers[i]); }
    case _ =>
  }

  lemma {:induction false} FuelRunsOut(s: Apartment, steps: seq<Action>, s': Apartment)
    requires Run(s, steps, s')
    ensures |steps| + Fuel(s') <= Fuel(s)
    decreases |steps|
  {
    hide Do, Fuel;
    if steps != [] {
      FuelDecreases(s, steps[0]);
      FuelRunsOut(Do(s, steps[0]), steps[1..], s');
    }
  }

  // At most six steps a call: every run comes to the point where nothing moves.
  lemma RunsEnd(s: Apartment, steps: seq<Action>, s': Apartment)
    requires Initial(s) && Run(s, steps, s')
    ensures |steps| <= 6 * |s.callers|
  {
    hide Sum;
    FuelRunsOut(s, steps, s');
    SumBound(CALLER_FUEL, s.callers, 6);
  }
}
