// Every interleaving of the processes that send to and receive from one message queue of pgos/MsOS_queue.c: three
// semaphores, a list of free nodes and a list of used ones.  A step is one semaphore operation, one section under
// lockSemaphore, or one copy into or out of a node in hand.
module QueueRuns {
  import opened Wrappers
  import opened MsgQueues
  import opened Sums

  // A call of MsOS_SendToQueue.  MayTake has its permit; place is the message's position in the order of linking.
  datatype Sender =
    | Sending(data: seq<byte>) | MayTake(data: seq<byte>) | Holding(node: nat, data: seq<byte>)
    | Filled(node: nat, data: seq<byte>) | Linked(place: nat, data: seq<byte>) | Sent(place: nat, data: seq<byte>)
    | TooLong | SendTimedOut | NoFreeNode

  // A call of MsOS_RecvFromQueue; place is the position of its message in the order of removal.
  datatype Receiver =
    | Receiving(size: nat) | MayRemove(size: nat) | Removed(node: nat, size: nat, place: nat)
    | Copied(node: nat, size: nat, place: nat, out: seq<byte>) | Freed(size: nat, place: nat, out: seq<byte>)
    | Received(size: nat, place: nat, out: seq<byte>) | RecvTimedOut | NoUsedNode

  // Where a node is.
  datatype Place = OnFree | OnUsed | WithSender(i: nat) | WithReceiver(i: nat)

  // The two lists hold nodes by number; text is what each node carries.  The histories: who holds each node, the
  // messages in the order they were linked and removed with the calls that did it, and the permits lost to messages
  // that were too long.
  datatype Queue = Queue(
    maxSizeOfMsg: nat, sendPermits: nat, recvPermits: nat, free: seq<nat>, used: seq<nat>, text: seq<seq<byte>>,
    senders: seq<Sender>, receivers: seq<Receiver>,
    where: seq<Place>, linked: seq<seq<byte>>, linkers: seq<nat>, removed: seq<seq<byte>>, takers: seq<nat>,
    leaked: nat)

  datatype Action =
    | ObtainSend(i: nat) | TakeFree(i: nat) | Fill(i: nat) | LinkUsed(i: nat) | ReleaseRecv(i: nat)
    | ObtainRecv(i: nat) | RemoveUsed(i: nat) | Copy(i: nat) | LinkFree(i: nat) | ReleaseSend(i: nat)
    | SendTimeout(i: nat) | RecvTimeout(i: nat)

  predicate IsTimeout(a: Action) {
    a.SendTimeout? || a.RecvTimeout?
  }

  predicate OfSender(a: Action) {
    a.ObtainSend? || a.TakeFree? || a.Fill? || a.LinkUsed? || a.ReleaseRecv? || a.SendTimeout?
  }

  predicate Enabled(q: Queue, a: Action) {
    match a
    case ObtainSend(i) => i < |q.senders| && q.senders[i].Sending? && q.sendPermits > 0
    case TakeFree(i) => i < |q.senders| && q.senders[i].MayTake?
    case Fill(i) => i < |q.senders| && q.senders[i].Holding? && q.senders[i].node < |q.text|
    case LinkUsed(i) => i < |q.senders| && q.senders[i].Filled?
    case ReleaseRecv(i) => i < |q.senders| && q.senders[i].Linked?
    case ObtainRecv(i) => i < |q.receivers| && q.receivers[i].Receiving? && q.recvPermits > 0
    case RemoveUsed(i) => i < |q.receivers| && q.receivers[i].MayRemove?
    case Copy(i) => i < |q.receivers| && q.receivers[i].Removed?
    case LinkFree(i) => i < |q.receivers| && q.receivers[i].Copied?
    case ReleaseSend(i) => i < |q.receivers| && q.receivers[i].Freed?
    case SendTimeout(i) => i < |q.senders| && q.senders[i].Sending?
    case RecvTimeout(i) => i < |q.receivers| && q.receivers[i].Receiving?
  }

  function Put(where: seq<Place>, n: nat, p: Place): (r: seq<Place>)
    ensures |r| == |where| && forall m | 0 <= m < |where| :: r[m] == if m == n then p else where[m]
  {
    if n < |where| then where[n := p] else where
  }

  function TextAt(text: seq<seq<byte>>, n: nat): seq<byte> {
    if n < |text| then text[n] else []
  }

  // A message that is too long puts its node back but keeps the permit.
  function DoFill(q: Queue, i: nat): Queue
    requires Enabled(q, Fill(i))
  {
    var s := q.senders[i];
    if q.maxSizeOfMsg >= |s.data| then
      q.(text := q.text[s.node := s.data], senders := q.senders[i := Filled(s.node, s.data)])
    else
      q.(free := q.free + [s.node], where := Put(q.where, s.node, OnFree), leaked := q.leaked + 1,
         senders := q.senders[i := TooLong])
  }

  function DoSend(q: Queue, a: Action): Queue
    requires Enabled(q, a) && OfSender(a)
  {
    var i := a.i;
    var s := q.senders[i];
    match a
    case ObtainSend(_) => q.(sendPermits := q.sendPermits - 1, senders := q.senders[i := MayTake(s.data)])
    case TakeFree(_) =>
      if q.free == [] then q.(senders := q.senders[i := NoFreeNode])
      else q.(free := q.free[1..], where := Put(q.where, q.free[0], WithSender(i)),
              senders := q.senders[i := Holding(q.free[0], s.data)])
    case Fill(_) => DoFill(q, i)
    case LinkUsed(_) =>
      q.(used := q.used + [s.node], where := Put(q.where, s.node, OnUsed),
         linked := q.linked + [TextAt(q.text, s.node)], linkers := q.linkers + [i],
         senders := q.senders[i := Linked(|q.linked|, s.data)])
    case ReleaseRecv(_) => q.(recvPermits := q.recvPermits + 1, senders := q.senders[i := Sent(s.place, s.data)])
    case SendTimeout(_) => q.(senders := q.senders[i := SendTimedOut])
  }

  function DoRecv(q: Queue, a: Action): Queue
    requires Enabled(q, a) && !OfSender(a)
  {
    var i := a.i;
    var r := q.receivers[i];
    match a
    case ObtainRecv(_) => q.(recvPermits := q.recvPermits - 1, receivers := q.receivers[i := MayRemove(r.size)])
    case RemoveUsed(_) =>
      if q.used == [] then q.(receivers := q.receivers[i := NoUsedNode])
      else q.(used := q.used[1..], where := Put(q.where, q.used[0], WithReceiver(i)),
              removed := q.removed + [TextAt(q.text, q.used[0])], takers := q.takers + [i],
              receivers := q.receivers[i := Removed(q.used[0], r.size, |q.removed|)])
    case Copy(_) =>
      q.(receivers := q.receivers[i := Copied(r.node, r.size, r.place, Truncate(TextAt(q.text, r.node), r.size))])
    case LinkFree(_) =>
      q.(free := q.free + [r.node], where := Put(q.where, r.node, OnFree),
         receivers := q.receivers[i := Freed(r.size, r.place, r.out)])
    case ReleaseSend(_) =>
      q.(sendPermits := q.sendPermits + 1, receivers := q.receivers[i := Received(r.size, r.place, r.out)])
    case RecvTimeout(_) => q.(receivers := q.receivers[i := RecvTimedOut])
  }

  function Do(q: Queue, a: Action): Queue
    requires Enabled(q, a)
  {
    if OfSender(a) then DoSend(q, a) else DoRecv(q, a)
  }

  ghost predicate Run(q: Queue, steps: seq<Action>, q': Queue)
    decreases |steps|
  {
    if steps == [] then q' == q
    else Enabled(q, steps[0]) && Run(Do(q, steps[0]), steps[1..], q')
  }

  // A queue as MsOS_CreateQueue leaves it, and calls about to begin.
  ghost predicate Initial(q: Queue) {
    && q.sendPermits == |q.text| && q.recvPermits == 0
    && |q.free| == |q.text| == |q.where| && (forall n | 0 <= n < |q.free| :: q.free[n] == n && q.where[n] == OnFree)
    && q.used == [] && q.linked == [] && q.linkers == [] && q.removed == [] && q.takers == [] && q.leaked == 0
    && (forall i | 0 <= i < |q.senders| :: q.senders[i].Sending?)
    && (forall i | 0 <= i < |q.receivers| :: q.receivers[i].Receiving?)
  }

  // ---------- the invariant ----------

  predicate Distinct(s: seq<nat>) {
    forall a, b | 0 <= a < b < |s| :: s[a] != s[b]
  }

  predicate SenderHas(s: Sender) {
    s.Holding? || s.Filled?
  }

  predicate ReceiverHas(r: Receiver) {
    r.Removed? || r.Copied?
  }

  // A list holds exactly the nodes that are in its place, each once.
  ghost predicate OnList(list: seq<nat>, where: seq<Place>, p: Place) {
    && Distinct(list)
    && (forall n | n in list :: n < |where| && where[n] == p)
    && (forall n | 0 <= n < |where| :: where[n] == p ==> n in list)
  }

  ghost predicate Lists(q: Queue) {
    |q.where| == |q.text| && OnList(q.free, q.where, OnFree) && OnList(q.used, q.where, OnUsed)
  }

  // A node is in a process's hands exactly when the process says so.
  ghost predicate SendersHold(ss: seq<Sender>, where: seq<Place>) {
    && (forall i | 0 <= i < |ss| && SenderHas(ss[i]) :: ss[i].node < |where| && where[ss[i].node] == WithSender(i))
    && (forall n | 0 <= n < |where| && where[n].WithSender? ::
          where[n].i < |ss| && SenderHas(ss[where[n].i]) && ss[where[n].i].node == n)
  }

  ghost predicate ReceiversHold(rs: seq<Receiver>, where: seq<Place>) {
    && (forall i | 0 <= i < |rs| && ReceiverHas(rs[i]) :: rs[i].node < |where| && where[rs[i].node] == WithReceiver(i))
    && (forall n | 0 <= n < |where| && where[n].WithReceiver? ::
          where[n].i < |rs| && ReceiverHas(rs[where[n].i]) && rs[where[n].i].node == n)
  }

  ghost predicate Hands(q: Queue) {
    SendersHold(q.senders, q.where) && ReceiversHold(q.receivers, q.where)
  }

  const MAY_TAKE: Sender -> nat := (s: Sender) => if s.MayTake? then 1 else 0
  const SENDER_HAS: Sender -> nat := (s: Sender) => if SenderHas(s) then 1 else 0
  const LINKED: Sender -> nat := (s: Sender) => if s.Linked? then 1 else 0
  const TOO_LONG: Sender -> nat := (s: Sender) => if s.TooLong? then 1 else 0
  const MAY_REMOVE: Receiver -> nat := (r: Receiver) => if r.MayRemove? then 1 else 0
  const RECEIVER_HAS: Receiver -> nat := (r: Receiver) => if ReceiverHas(r) then 1 else 0
  const FREED: Receiver -> nat := (r: Receiver) => if r.Freed? then 1 else 0

  // Permits, permits in flight and permits lost account for the length of both lists.
  ghost predicate Permits(q: Queue) {
    && |q.free| == q.sendPermits + Sum(MAY_TAKE, q.senders) + Sum(FREED, q.receivers) + q.leaked
    && |q.used| == q.recvPermits + Sum(MAY_REMOVE, q.receivers) + Sum(LINKED, q.senders)
    && |q.text| == |q.free| + |q.used| + Sum(SENDER_HAS, q.senders) + Sum(RECEIVER_HAS, q.receivers)
    && q.leaked == Sum(TOO_LONG, q.senders)
    && (forall i | 0 <= i < |q.senders| :: q.senders[i] != NoFreeNode)
    && (forall i | 0 <= i < |q.receivers| :: q.receivers[i] != NoUsedNode)
  }

  // The used list is what has been linked and not yet removed, oldest first.
  ghost predicate InOrder(text: seq<seq<byte>>, used: seq<nat>, linked: seq<seq<byte>>, removed: seq<seq<byte>>) {
    && |linked| == |removed| + |used|
    && (forall k | 0 <= k < |removed| :: removed[k] == linked[k])
    && (forall k | 0 <= k < |used| :: TextAt(text, used[k]) == linked[|removed| + k])
  }

  ghost predicate Fifo(q: Queue) {
    InOrder(q.text, q.used, q.linked, q.removed)
  }

  predicate HasLinked(s: Sender) {
    s.Linked? || s.Sent?
  }

  predicate HasRemoved(r: Receiver) {
    r.Removed? || r.Copied? || r.Freed? || r.Received?
  }

  // Each linked message came from one sender, each removed one went to one receiver, and they carry the right bytes.
  ghost predicate SenderStory(ss: seq<Sender>, linked: seq<seq<byte>>, linkers: seq<nat>, max: nat) {
    && |linkers| == |linked|
    && (forall k | 0 <= k < |linkers| :: linkers[k] < |ss| && HasLinked(ss[linkers[k]]) && ss[linkers[k]].place == k)
    && (forall i | 0 <= i < |ss| && HasLinked(ss[i]) ::
          && ss[i].place < |linked| && linkers[ss[i].place] == i
          && linked[ss[i].place] == ss[i].data && |ss[i].data| <= max)
  }

  ghost predicate FilledStory(ss: seq<Sender>, text: seq<seq<byte>>, max: nat) {
    forall i | 0 <= i < |ss| && ss[i].Filled? :: TextAt(text, ss[i].node) == ss[i].data && |ss[i].data| <= max
  }

  ghost predicate ReceiverStory(rs: seq<Receiver>, removed: seq<seq<byte>>, takers: seq<nat>) {
    && |takers| == |removed|
    && (forall k | 0 <= k < |takers| :: takers[k] < |rs| && HasRemoved(rs[takers[k]]) && rs[takers[k]].place == k)
    && (forall i | 0 <= i < |rs| && HasRemoved(rs[i]) ::
          && rs[i].place < |removed| && takers[rs[i].place] == i
          && (!rs[i].Removed? ==> rs[i].out == Truncate(removed[rs[i].place], rs[i].size)))
  }

  ghost predicate RemovedStory(rs: seq<Receiver>, removed: seq<seq<byte>>, text: seq<seq<byte>>) {
    forall i | 0 <= i < |rs| && rs[i].Removed? ::
        rs[i].place < |removed| && TextAt(text, rs[i].node) == removed[rs[i].place]
  }

  ghost predicate Stories(q: Queue) {
    && SenderStory(q.senders, q.linked, q.linkers, q.maxSizeOfMsg)
    && FilledStory(q.senders, q.text, q.maxSizeOfMsg)
    && ReceiverStory(q.receivers, q.removed, q.takers)
    && RemovedStory(q.receivers, q.removed, q.text)
  }

  ghost predicate Inv(q: Queue) {
    Lists(q) && Hands(q) && Permits(q) && Fifo(q) && Stories(q)
  }

  lemma InitialInv(q: Queue)
    requires Initial(q)
    ensures Inv(q)
  {
    SumZero(MAY_TAKE, q.senders);
    SumZero(SENDER_HAS, q.senders);
    SumZero(LINKED, q.senders);
    SumZero(TOO_LONG, q.senders);
    SumZero(MAY_REMOVE, q.receivers);
    SumZero(RECEIVER_HAS, q.receivers);
    SumZero(FREED, q.receivers);
    forall n | 0 <= n < |q.where| ensures n in q.free {
      assert q.free[n] == n;
    }
  }

  // ---------- every step keeps the invariant ----------

  lemma TakeOff(list: seq<nat>, where: seq<Place>, p: Place, to: Place)
    requires OnList(list, where, p) && list != [] && to != p
    ensures list[0] < |where| && where[list[0]] == p && OnList(list[1..], Put(where, list[0], to), p)
  {
    var rest := list[1..];
    assert list == [list[0]] + rest;
    assert list[0] in list;
    forall n | n in rest ensures n in list && n != list[0] {
      var a :| 0 <= a < |rest| && rest[a] == n;
      assert list[a + 1] == n && list[0] != list[a + 1];
    }
    forall a, b | 0 <= a < b < |rest| ensures rest[a] != rest[b] {
      assert list[a + 1] != list[b + 1];
    }
    assert forall n | n in list && n != list[0] :: n in rest;
  }

  lemma PutOn(list: seq<nat>, where: seq<Place>, p: Place, n: nat)
    requires OnList(list, where, p) && n < |where| && where[n] != p
    ensures OnList(list + [n], Put(where, n, p), p)
  {
  }

  lemma Elsewhere(list: seq<nat>, where: seq<Place>, p: Place, n: nat, to: Place)
    requires OnList(list, where, p) && n < |where| && where[n] != p && to != p
    ensures OnList(list, Put(where, n, to), p)
  {
  }

  lemma ListsKept(q: Queue, a: Action)
    requires Lists(q) && Hands(q) && Enabled(q, a)
    ensures Lists(Do(q, a))
  {
    hide OnList;
    match a
    case TakeFree(i) =>
      if q.free != [] {
        TakeOff(q.free, q.where, OnFree, WithSender(i));
        Elsewhere(q.used, q.where, OnUsed, q.free[0], WithSender(i));
      }
    case Fill(i) =>
      PutOn(q.free, q.where, OnFree, q.senders[i].node);
      Elsewhere(q.used, q.where, OnUsed, q.senders[i].node, OnFree);
    case LinkUsed(i) =>
      PutOn(q.used, q.where, OnUsed, q.senders[i].node);
      Elsewhere(q.free, q.where, OnFree, q.senders[i].node, OnUsed);
    case RemoveUsed(i) =>
      if q.used != [] {
        TakeOff(q.used, q.where, OnUsed, WithReceiver(i));
        Elsewhere(q.free, q.where, OnFree, q.used[0], WithReceiver(i));
      }
    case LinkFree(i) =>
      PutOn(q.free, q.where, OnFree, q.receivers[i].node);
      Elsewhere(q.used, q.where, OnUsed, q.receivers[i].node, OnFree);
    case _ =>
  }

  lemma SenderMoves(ss: seq<Sender>, where: seq<Place>, i: nat, s: Sender)
    requires SendersHold(ss, where) && i < |ss| && SenderHas(s) == SenderHas(ss[i])
    requires SenderHas(s) ==> s.node == ss[i].node
    ensures SendersHold(ss[i := s], where)
  {
  }

  lemma SenderPicks(ss: seq<Sender>, where: seq<Place>, i: nat, s: Sender)
    requires SendersHold(ss, where) && i < |ss| && !SenderHas(ss[i])
    requires SenderHas(s) && s.node < |where| && !where[s.node].WithSender?
    ensures SendersHold(ss[i := s], Put(where, s.node, WithSender(i)))
  {
  }

  lemma SenderDrops(ss: seq<Sender>, where: seq<Place>, i: nat, s: Sender, p: Place)
    requires SendersHold(ss, where) && i < |ss| && SenderHas(ss[i]) && !SenderHas(s) && !p.WithSender?
    ensures SendersHold(ss[i := s], Put(where, ss[i].node, p))
  {
  }

  lemma SendersWatch(ss: seq<Sender>, where: seq<Place>, n: nat, p: Place)
    requires SendersHold(ss, where) && n < |where| && !where[n].WithSender? && !p.WithSender?
    ensures SendersHold(ss, Put(where, n, p))
  {
  }

  lemma ReceiverMoves(rs: seq<Receiver>, where: seq<Place>, i: nat, r: Receiver)
    requires ReceiversHold(rs, where) && i < |rs| && ReceiverHas(r) == ReceiverHas(rs[i])
    requires ReceiverHas(r) ==> r.node == rs[i].node
    ensures ReceiversHold(rs[i := r], where)
  {
  }

  lemma ReceiverPicks(rs: seq<Receiver>, where: seq<Place>, i: nat, r: Receiver)
    requires ReceiversHold(rs, where) && i < |rs| && !ReceiverHas(rs[i])
    requires ReceiverHas(r) && r.node < |where| && !where[r.node].WithReceiver?
    ensures ReceiversHold(rs[i := r], Put(where, r.node, WithReceiver(i)))
  {
  }

  lemma ReceiverDrops(rs: seq<Receiver>, where: seq<Place>, i: nat, r: Receiver, p: Place)
    requires ReceiversHold(rs, where) && i < |rs| && ReceiverHas(rs[i]) && !ReceiverHas(r) && !p.WithReceiver?
    ensures ReceiversHold(rs[i := r], Put(where, rs[i].node, p))
  {
  }

  lemma ReceiversWatch(rs: seq<Receiver>, where: seq<Place>, n: nat, p: Place)
    requires ReceiversHold(rs, where) && n < |where| && !where[n].WithReceiver? && !p.WithReceiver?
    ensures ReceiversHold(rs, Put(where, n, p))
  {
  }

  lemma HandsKeptBySend(q: Queue, a: Action)
    requires Lists(q) && Hands(q) && Enabled(q, a) && OfSender(a)
    ensures Hands(DoSend(q, a))
  {
    var i := a.i;
    var s := DoSend(q, a).senders[i];
    assert SenderHas(q.senders[i]) ==> !q.where[q.senders[i].node].WithReceiver?;
    assert q.free != [] ==> q.free[0] in q.free;
    hide SendersHold, ReceiversHold, OnList;
    match a
    case TakeFree(_) =>
      if q.free != [] {
        SenderPicks(q.senders, q.where, i, s);
        ReceiversWatch(q.receivers, q.where, q.free[0], WithSender(i));
      } else {
        SenderMoves(q.senders, q.where, i, s);
      }
    case Fill(_) =>
      if s.Filled? {
        SenderMoves(q.senders, q.where, i, s);
      } else {
        SenderDrops(q.senders, q.where, i, s, OnFree);
        ReceiversWatch(q.receivers, q.where, q.senders[i].node, OnFree);
      }
    case LinkUsed(_) =>
      SenderDrops(q.senders, q.where, i, s, OnUsed);
      ReceiversWatch(q.receivers, q.where, q.senders[i].node, OnUsed);
    case _ => SenderMoves(q.senders, q.where, i, s);
  }

  lemma HandsKeptByRecv(q: Queue, a: Action)
    requires Lists(q) && Hands(q) && Enabled(q, a) && !OfSender(a)
    ensures Hands(DoRecv(q, a))
  {
    var i := a.i;
    var r := DoRecv(q, a).receivers[i];
    assert ReceiverHas(q.receivers[i]) ==> !q.where[q.receivers[i].node].WithSender?;
    assert q.used != [] ==> q.used[0] in q.used;
    hide SendersHold, ReceiversHold, OnList;
    match a
    case RemoveUsed(_) =>
      if q.used != [] {
        ReceiverPicks(q.receivers, q.where, i, r);
        SendersWatch(q.senders, q.where, q.used[0], WithReceiver(i));
      } else {
        ReceiverMoves(q.receivers, q.where, i, r);
      }
    case LinkFree(_) =>
      ReceiverDrops(q.receivers, q.where, i, r, OnFree);
      SendersWatch(q.senders, q.where, q.receivers[i].node, OnFree);
    case _ => ReceiverMoves(q.receivers, q.where, i, r);
  }

  lemma SenderCounts(ss: seq<Sender>, i: nat, s: Sender)
    requires i < |ss|
    ensures Sum(MAY_TAKE, ss[i := s]) + MAY_TAKE(ss[i]) == Sum(MAY_TAKE, ss) + MAY_TAKE(s)
    ensures Sum(SENDER_HAS, ss[i := s]) + SENDER_HAS(ss[i]) == Sum(SENDER_HAS, ss) + SENDER_HAS(s)
    ensures Sum(LINKED, ss[i := s]) + LINKED(ss[i]) == Sum(LINKED, ss) + LINKED(s)
    ensures Sum(TOO_LONG, ss[i := s]) + TOO_LONG(ss[i]) == Sum(TOO_LONG, ss) + TOO_LONG(s)
    ensures MAY_TAKE(ss[i]) <= Sum(MAY_TAKE, ss)
  {
    SumUpdate(MAY_TAKE, ss, i, s);
    SumUpdate(SENDER_HAS, ss, i, s);
    SumUpdate(LINKED, ss, i, s);
    SumUpdate(TOO_LONG, ss, i, s);
    SumHas(MAY_TAKE, ss, i);
  }

  lemma ReceiverCounts(rs: seq<Receiver>, i: nat, r: Receiver)
    requires i < |rs|
    ensures Sum(MAY_REMOVE, rs[i := r]) + MAY_REMOVE(rs[i]) == Sum(MAY_REMOVE, rs) + MAY_REMOVE(r)
    ensures Sum(RECEIVER_HAS, rs[i := r]) + RECEIVER_HAS(rs[i]) == Sum(RECEIVER_HAS, rs) + RECEIVER_HAS(r)
    ensures Sum(FREED, rs[i := r]) + FREED(rs[i]) == Sum(FREED, rs) + FREED(r)
    ensures MAY_REMOVE(rs[i]) <= Sum(MAY_REMOVE, rs)
  {
    SumUpdate(MAY_REMOVE, rs, i, r);
    SumUpdate(RECEIVER_HAS, rs, i, r);
    SumUpdate(FREED, rs, i, r);
    SumHas(MAY_REMOVE, rs, i);
  }

  // A process with a permit always finds a node.
  lemma PermitFindsNode(q: Queue, a: Action)
    requires Permits(q) && Enabled(q, a)
    ensures a.TakeFree? ==> q.free != []
    ensures a.RemoveUsed? ==> q.used != []
  {
    hide Sum;
    match a
    case TakeFree(i) => SumHas(MAY_TAKE, q.senders, i);
    case RemoveUsed(i) => SumHas(MAY_REMOVE, q.receivers, i);
    case _ =>
  }

  lemma PermitsKeptBySend(q: Queue, a: Action)
    requires Permits(q) && Enabled(q, a) && OfSender(a)
    ensures Permits(DoSend(q, a))
  {
    hide Sum;
    PermitFindsNode(q, a);
    SenderCounts(q.senders, a.i, DoSend(q, a).senders[a.i]);
  }

  lemma PermitsKeptByRecv(q: Queue, a: Action)
    requires Permits(q) && Enabled(q, a) && !OfSender(a)
    ensures Permits(DoRecv(q, a))
  {
    hide Sum;
    PermitFindsNode(q, a);
    ReceiverCounts(q.receivers, a.i, DoRecv(q, a).receivers[a.i]);
  }

  lemma LinkingKeepsOrder(text: seq<seq<byte>>, used: seq<nat>, linked: seq<seq<byte>>, removed: seq<seq<byte>>, n: nat)
    requires InOrder(text, used, linked, removed)
    ensures InOrder(text, used + [n], linked + [TextAt(text, n)], removed)
  {
    hide TextAt;
  }

  lemma RemovingKeepsOrder(text: seq<seq<byte>>, used: seq<nat>, linked: seq<seq<byte>>, removed: seq<seq<byte>>)
    requires InOrder(text, used, linked, removed) && used != []
    ensures InOrder(text, used[1..], linked, removed + [TextAt(text, used[0])])
  {
    hide TextAt;
    assert TextAt(text, used[0]) == linked[|removed| + 0];
    forall k | 0 <= k < |used| - 1 ensures TextAt(text, used[1..][k]) == linked[|removed| + 1 + k] {
      assert TextAt(text, used[k + 1]) == linked[|removed| + (k + 1)];
    }
  }

  // Filling a node in hand changes no other node's text.
  lemma FillingKeepsOrder(
    text: seq<seq<byte>>, used: seq<nat>, linked: seq<seq<byte>>, removed: seq<seq<byte>>, n: nat, data: seq<byte>)
    requires InOrder(text, used, linked, removed) && n < |text| && n !in used
    ensures InOrder(text[n := data], used, linked, removed)
  {
    assert forall k | 0 <= k < |used| :: used[k] in used && TextAt(text[n := data], used[k]) == TextAt(text, used[k]);
    hide TextAt;
  }

  lemma FifoKept(q: Queue, a: Action)
    requires Lists(q) && Hands(q) && Fifo(q) && Enabled(q, a)
    ensures Fifo(Do(q, a))
  {
    if a.Fill? {
      assert q.senders[a.i].node !in q.used;
      FillingKeepsOrder(q.text, q.used, q.linked, q.removed, q.senders[a.i].node, q.senders[a.i].data);
    } else if a.LinkUsed? {
      LinkingKeepsOrder(q.text, q.used, q.linked, q.removed, q.senders[a.i].node);
    } else if a.RemoveUsed? && q.used != [] {
      RemovingKeepsOrder(q.text, q.used, q.linked, q.removed);
    }
    hide OnList, SendersHold, ReceiversHold, InOrder, TextAt;
  }

  lemma SenderStoryKept(q: Queue, a: Action)
    requires Stories(q) && Enabled(q, a) && OfSender(a)
    ensures var q' := DoSend(q, a); SenderStory(q'.senders, q'.linked, q'.linkers, q'.maxSizeOfMsg)
  {
    var s := q.senders[a.i];
    if a.LinkUsed? {
      assert TextAt(q.text, s.node) == s.data && |s.data| <= q.maxSizeOfMsg;
      StoryLinked(q.senders, q.linked, q.linkers, q.maxSizeOfMsg, a.i, s.data);
    } else {
      StoryMoved(q.senders, q.linked, q.linkers, q.maxSizeOfMsg, a.i, DoSend(q, a).senders[a.i]);
    }
    hide SenderStory, ReceiverStory, RemovedStory, FilledStory, Put, TextAt;
  }

  lemma StoryLinked(ss: seq<Sender>, linked: seq<seq<byte>>, linkers: seq<nat>, max: nat, i: nat, data: seq<byte>)
    requires SenderStory(ss, linked, linkers, max) && i < |ss| && !HasLinked(ss[i]) && |data| <= max
    ensures SenderStory(ss[i := Linked(|linked|, data)], linked + [data], linkers + [i], max)
  {
  }

  // A sender that has linked its message keeps its place and data; one that has not, still has not.
  lemma StoryMoved(ss: seq<Sender>, linked: seq<seq<byte>>, linkers: seq<nat>, max: nat, i: nat, s: Sender)
    requires SenderStory(ss, linked, linkers, max) && i < |ss| && (HasLinked(s) <==> HasLinked(ss[i]))
    requires HasLinked(s) ==> s.place == ss[i].place && s.data == ss[i].data
    ensures SenderStory(ss[i := s], linked, linkers, max)
  {
  }

  lemma FilledStoryKept(q: Queue, a: Action)
    requires Stories(q) && Hands(q) && Enabled(q, a) && OfSender(a)
    ensures var q' := DoSend(q, a); FilledStory(q'.senders, q'.text, q'.maxSizeOfMsg)
  {
    hide ReceiverStory, RemovedStory, SenderStory, ReceiversHold;
  }

  lemma RemovedStoryWatches(q: Queue, a: Action)
    requires Stories(q) && Hands(q) && Enabled(q, a) && OfSender(a)
    ensures var q' := DoSend(q, a); RemovedStory(q'.receivers, q'.removed, q'.text)
  {
    hide ReceiverStory, FilledStory, SenderStory;
  }

  lemma StoriesKeptBySend(q: Queue, a: Action)
    requires Stories(q) && Hands(q) && Enabled(q, a) && OfSender(a)
    ensures Stories(DoSend(q, a))
  {
    SenderStoryKept(q, a);
    FilledStoryKept(q, a);
    RemovedStoryWatches(q, a);
    hide ReceiverStory, RemovedStory, SenderStory, FilledStory, SendersHold, ReceiversHold;
  }

  lemma ReceiverStoryKept(q: Queue, a: Action)
    requires Stories(q) && Enabled(q, a) && !OfSender(a)
    ensures var q' := DoRecv(q, a); ReceiverStory(q'.receivers, q'.removed, q'.takers)
  {
    hide SenderStory, FilledStory;
  }

  lemma StoriesKeptByRecv(q: Queue, a: Action)
    requires Stories(q) && Hands(q) && Enabled(q, a) && !OfSender(a)
    ensures Stories(DoRecv(q, a))
  {
    ReceiverStoryKept(q, a);
    hide ReceiverStory, SenderStory, FilledStory, SendersHold, ReceiversHold;
  }

  lemma StepKeepsInv(q: Queue, a: Action)
    requires Inv(q) && Enabled(q, a)
    ensures Inv(Do(q, a))
  {
    hide DoSend, DoRecv, Lists, Hands, Permits, Fifo, Stories;
    ListsKept(q, a);
    FifoKept(q, a);
    if OfSender(a) {
      HandsKeptBySend(q, a);
      PermitsKeptBySend(q, a);
      StoriesKeptBySend(q, a);
    } else {
      HandsKeptByRecv(q, a);
      PermitsKeptByRecv(q, a);
      StoriesKeptByRecv(q, a);
    }
  }

  lemma {:induction false} RunKeepsInv(q: Queue, steps: seq<Action>, q': Queue)
    requires Inv(q) && Run(q, steps, q')
    ensures Inv(q')
    decreases |steps|
  {
    hide Inv, Do;
    if steps != [] {
      StepKeepsInv(q, steps[0]);
      RunKeepsInv(Do(q, steps[0]), steps[1..], q');
    }
  }

  // ---------- what every run keeps ----------

  // A process that was granted a permit never finds its list empty, and each node is in exactly one place.
  lemma EveryPermitFindsANode(q: Queue, steps: seq<Action>, q': Queue)
    requires Initial(q) && Run(q, steps, q')
    ensures Lists(q') && Hands(q')
    ensures forall a | Enabled(q', a) :: (a.TakeFree? ==> q'.free != []) && (a.RemoveUsed? ==> q'.used != [])
    ensures forall i | 0 <= i < |q'.senders| :: q'.senders[i] != NoFreeNode
    ensures forall i | 0 <= i < |q'.receivers| :: q'.receivers[i] != NoUsedNode
  {
    InitialInv(q);
    RunKeepsInv(q, steps, q');
    forall a | Enabled(q', a) ensures (a.TakeFree? ==> q'.free != []) && (a.RemoveUsed? ==> q'.used != []) {
      PermitFindsNode(q', a);
    }
  }

  // First in, first out: messages are removed in the order they were linked.  The k-th removed message is the data
  // of the sender that linked it, and the one receiver that took it hands out its first size bytes.
  lemma DeliveredInOrder(q: Queue, steps: seq<Action>, q': Queue, k: nat)
    requires Initial(q) && Run(q, steps, q') && k < |q'.removed|
    ensures k < |q'.linkers| && k < |q'.takers|
    ensures q'.linkers[k] < |q'.senders| && q'.takers[k] < |q'.receivers|
    ensures HasLinked(q'.senders[q'.linkers[k]]) && HasRemoved(q'.receivers[q'.takers[k]])
    ensures var s := q'.senders[q'.linkers[k]]; s.place == k && q'.removed[k] == s.data && |s.data| <= q'.maxSizeOfMsg
    ensures var r, m := q'.receivers[q'.takers[k]], q'.removed[k];
            r.place == k && (!r.Removed? ==> r.out == if |m| <= r.size then m else m[..r.size])
    ensures forall i | 0 <= i < |q'.receivers| && HasRemoved(q'.receivers[i]) && q'.receivers[i].place == k ::
              i == q'.takers[k]
    ensures forall i | 0 <= i < |q'.senders| && HasLinked(q'.senders[i]) && q'.senders[i].place == k ::
              i == q'.linkers[k]
  {
    InitialInv(q);
    RunKeepsInv(q, steps, q');
  }

  // The message in this place of the order of linking: removed already, or on a used node.
  function MessageAt(q: Queue, place: nat): seq<byte>
    requires place < |q.removed| + |q.used|
  {
    if place < |q.removed| then q.removed[place] else TextAt(q.text, q.used[place - |q.removed|])
  }

  lemma WhereLinkedIs(q: Queue, place: nat)
    requires Fifo(q) && place < |q.linked|
    ensures place < |q.removed| + |q.used| && q.linked[place] == MessageAt(q, place)
  {
    hide TextAt;
    if place >= |q.removed| {
      assert place == |q.removed| + (place - |q.removed|);
    }
  }

  // Nothing sent is lost: a linked message is either removed or still on the used list.
  lemma NothingSentIsLost(q: Queue, steps: seq<Action>, q': Queue, i: nat)
    requires Initial(q) && Run(q, steps, q') && i < |q'.senders| && HasLinked(q'.senders[i])
    ensures q'.senders[i].place < |q'.removed| + |q'.used|
    ensures q'.senders[i].data == MessageAt(q', q'.senders[i].place)
  {
    InitialInv(q);
    RunKeepsInv(q, steps, q');
    SenderIsLinked(q', i);
    WhereLinkedIs(q', q'.senders[i].place);
    hide *;
  }

  lemma SenderIsLinked(q: Queue, i: nat)
    requires Stories(q) && i < |q.senders| && HasLinked(q.senders[i])
    ensures q.senders[i].place < |q.linked| && q.linked[q.senders[i].place] == q.senders[i].data
  {
  }

  // ---------- capacity ----------

  // No process can do anything, timeouts aside.
  ghost predicate Stuck(q: Queue) {
    forall a: Action :: Enabled(q, a) ==> IsTimeout(a)
  }

  predicate SenderAtRest(q: Queue, s: Sender) {
    s.Sent? || s == TooLong || s == SendTimedOut || s == NoFreeNode || (s.Sending? && q.sendPermits == 0)
  }

  predicate ReceiverAtRest(q: Queue, r: Receiver) {
    r.Received? || r == RecvTimedOut || r == NoUsedNode || (r.Receiving? && q.recvPermits == 0)
  }

  lemma StuckSender(q: Queue, i: nat)
    requires Hands(q) && |q.where| == |q.text| && Stuck(q) && i < |q.senders|
    ensures SenderAtRest(q, q.senders[i])
  {
    assert Enabled(q, ObtainSend(i)) ==> IsTimeout(ObtainSend(i));
    assert Enabled(q, TakeFree(i)) ==> IsTimeout(TakeFree(i));
    assert Enabled(q, Fill(i)) ==> IsTimeout(Fill(i));
    assert Enabled(q, LinkUsed(i)) ==> IsTimeout(LinkUsed(i));
    assert Enabled(q, ReleaseRecv(i)) ==> IsTimeout(ReleaseRecv(i));
  }

  lemma StuckReceiver(q: Queue, i: nat)
    requires Stuck(q) && i < |q.receivers|
    ensures ReceiverAtRest(q, q.receivers[i])
  {
    assert Enabled(q, ObtainRecv(i)) ==> IsTimeout(ObtainRecv(i));
    assert Enabled(q, RemoveUsed(i)) ==> IsTimeout(RemoveUsed(i));
    assert Enabled(q, Copy(i)) ==> IsTimeout(Copy(i));
    assert Enabled(q, LinkFree(i)) ==> IsTimeout(LinkFree(i));
    assert Enabled(q, ReleaseSend(i)) ==> IsTimeout(ReleaseSend(i));
  }

  lemma StuckCalls(q: Queue)
    requires Inv(q) && Stuck(q)
    ensures forall i | 0 <= i < |q.senders| :: SenderAtRest(q, q.senders[i])
    ensures forall i | 0 <= i < |q.receivers| :: ReceiverAtRest(q, q.receivers[i])
  {
    hide Stuck, SenderAtRest, ReceiverAtRest, Sum;
    forall i | 0 <= i < |q.senders| ensures SenderAtRest(q, q.senders[i]) {
      StuckSender(q, i);
    }
    forall i | 0 <= i < |q.receivers| ensures ReceiverAtRest(q, q.receivers[i]) {
      StuckReceiver(q, i);
    }
  }

  // When every call has come to rest, the permits are the list lengths, less one for each message that was too long.
  lemma AtRest(q: Queue)
    requires Inv(q) && Stuck(q)
    ensures |q.free| == q.sendPermits + q.leaked && |q.used| == q.recvPermits
    ensures |q.text| == q.sendPermits + q.recvPermits + q.leaked
  {
    hide Sum;
    StuckCalls(q);
    SumZero(MAY_TAKE, q.senders);
    SumZero(SENDER_HAS, q.senders);
    SumZero(LINKED, q.senders);
    SumZero(MAY_REMOVE, q.receivers);
    SumZero(RECEIVER_HAS, q.receivers);
    SumZero(FREED, q.receivers);
  }

  lemma LeakFits(q: Queue)
    requires Inv(q)
    ensures q.sendPermits + q.leaked <= |q.text|
  {
    hide Sum;
  }

  // No deadlock between the two sides: a sender and a receiver are both left waiting only if a call has been made
  // with a message too long for every node of the queue; and then no later send ever gets through.
  lemma NobodyWaitsInVain(q: Queue, steps: seq<Action>, q': Queue, i: nat, j: nat)
    requires Initial(q) && Run(q, steps, q') && Stuck(q')
    requires i < |q'.senders| && j < |q'.receivers| && q'.senders[i].Sending? && q'.receivers[j].Receiving?
    ensures q'.leaked == |q'.text|
  {
    InitialInv(q);
    RunKeepsInv(q, steps, q');
    StuckCalls(q');
    AtRest(q');
  }

  lemma LeakGrows(q: Queue, a: Action)
    requires Enabled(q, a)
    ensures Do(q, a).leaked == q.leaked + (if a.Fill? && |q.senders[a.i].data| > q.maxSizeOfMsg then 1 else 0)
    ensures |Do(q, a).text| == |q.text| && Do(q, a).maxSizeOfMsg == q.maxSizeOfMsg
  {
  }

  // A message longer than maxSizeOfMsg costs the queue one place for good.  Once it has happened as often as there
  // are nodes, no send is ever granted a permit again.
  lemma {:induction false} LeakIsForGood(q: Queue, steps: seq<Action>, q': Queue)
    requires Inv(q) && Run(q, steps, q')
    ensures q.leaked <= q'.leaked <= |q'.text| == |q.text|
    ensures q'.leaked == Sum(TOO_LONG, q'.senders)
    ensures q.leaked == |q.text| ==> forall i :: !Enabled(q', ObtainSend(i))
    decreases |steps|
  {
    hide Do, Sum;
    LeakFits(q);
    if steps != [] {
      LeakGrows(q, steps[0]);
      StepKeepsInv(q, steps[0]);
      LeakIsForGood(Do(q, steps[0]), steps[1..], q');
    }
  }
}
