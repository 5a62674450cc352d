// A stream with damaged packets: the receiver drops them, and what that does to messages of several packets.
module Damage {
  import opened Wrappers
  import opened Wire
  import opened Reassembly
  import opened Receivers
  import opened Transport
  import opened Messages

  type Payload = p: seq<byte> | |p| < 0x1_0000 witness []

  // A packet as it comes: sent so, with the payload got.
  datatype Arrival = Arrival(s: Send, got: Payload)

  function ArrivalBytes(a: Arrival): seq<byte> {
    Packet(SentFragment(a.s).(payload := a.got), SentCrc(a.s.data))
  }

  function Arrived(aa: seq<Arrival>): seq<byte> {
    if aa == [] then [] else ArrivalBytes(aa[0]) + Arrived(aa[1..])
  }

  predicate Intact(a: Arrival) {
    a.got == a.s.data
  }

  // As it was sent, or altered within four bytes with the check not switched off.
  ghost predicate Plausible(a: Arrival) {
    && |a.s.data| <= PAYLOAD_MAX
    && (Intact(a) || (SentCrc(a.s.data) != 0 && exists at, n :: Altered(SentFragment(a.s).payload, a.got, at, n)))
  }

  // The sends whose packets came as they were sent.
  function IntactOnes(aa: seq<Arrival>): seq<Send> {
    if aa == [] then [] else (if Intact(aa[0]) then [aa[0].s] else []) + IntactOnes(aa[1..])
  }

  lemma TakeDamaged(a: Arrival, pending: seq<Fragment>, tail: seq<byte>)
    requires Plausible(a) && !Intact(a) && Healthy(pending)
    ensures var st := State(ArrivalBytes(a) + tail, pending, false);
            TryRead(st.bytes) != 0 && TakePacket(st) == (None, State(tail, pending, false))
  {
    hide Packet, TryRead, TakePacket, Altered, SentCrc, Healthy;
    var at, n :| Altered(SentFragment(a.s).payload, a.got, at, n);
    AlteredNeverFiled(State(ArrivalBytes(a) + tail, pending, false), a.s, a.got, at, n, tail);
  }

  lemma IntactBytes(a: Arrival)
    requires Intact(a)
    ensures ArrivalBytes(a) == SendBytes(a.s)
  {
    SentPayload(a.s.data);
    hide Packet, SentCrc;
    assert SentFragment(a.s).(payload := a.got) == SentFragment(a.s);
  }

  lemma AnswerKeepsHealthy(pending: seq<Fragment>, s: Send)
    requires Healthy(pending)
    ensures !Answer(pending, s).2 ==> Healthy(Answer(pending, s).1)
  {
    SettleKeepsHealthy(pending, SentFragment(s), true);
    hide Settle, Healthy;
  }

  // What one arrival does to a drain and to the list.
  lemma DrainArrival(a: Arrival, pending: seq<Fragment>, tail: seq<byte>)
    requires Plausible(a) && Healthy(pending)
    ensures var d := Drain(State(ArrivalBytes(a) + tail, pending, false));
            if Intact(a) then
              var r := Answer(pending, a.s);
              d == Prepend(r.0, Drain(State(tail, r.1, r.2))) && (!r.2 ==> Healthy(r.1))
            else d == Drain(State(tail, pending, false))
  {
    hide Drain, TryRead, TakePacket, ArrivalBytes, Plausible, Intact, Healthy, Settle, SendBytes;
    if Intact(a) {
      IntactBytes(a);
      AnswerKeepsHealthy(pending, a.s);
      DrainSent(pending, a.s, tail);
    } else {
      TakeDamaged(a, pending, tail);
      DrainByPacket(State(ArrivalBytes(a) + tail, pending, false), (None, State(tail, pending, false)));
    }
  }

  lemma IntactFirst(aa: seq<Arrival>)
    requires aa != []
    ensures IntactOnes(aa) == if Intact(aa[0]) then [aa[0].s] + IntactOnes(aa[1..]) else IntactOnes(aa[1..])
  {
    hide Intact;
  }

  lemma {:induction false} DrainArrived(aa: seq<Arrival>, pending: seq<Fragment>)
    requires (forall a | a in aa :: Plausible(a)) && Healthy(pending) && !Feed(pending, Sent(IntactOnes(aa))).2
    ensures var r := Feed(pending, Sent(IntactOnes(aa)));
            Drain(State(Arrived(aa), pending, false)) == (r.0, State([], r.1, false))
    decreases |aa|
  {
    hide ArrivalBytes, TryRead, Drain, Plausible, Intact, Healthy, Settle, Feed, Sent, IntactOnes;
    if aa == [] {
      DrainWaits(State([], pending, false)) by { NothingToRead(); }
      NothingIntact(pending);
    } else {
      var a, rest := aa[0], aa[1..];
      IntactFirst(aa);
      DrainArrival(a, pending, Arrived(rest));
      if Intact(a) {
        assert ([a.s] + IntactOnes(rest))[1..] == IntactOnes(rest);
        FeedFirst(pending, [a.s] + IntactOnes(rest));
        DrainArrived(rest, Answer(pending, a.s).1);
      } else {
        DrainArrived(rest, pending);
      }
    }
  }

  lemma NothingToRead()
    ensures TryRead([]) == 0
  {
  }

  lemma NothingIntact(pending: seq<Fragment>)
    ensures Feed(pending, Sent(IntactOnes([]))) == ([], pending, false)
  {
  }

  // ---------- chunks ----------

  lemma ArrivedSplit(aa: seq<Arrival>, n: nat)
    requires aa != [] && n <= |Arrived(aa)|
    ensures var k := |ArrivalBytes(aa[0])|;
            if n < k then Arrived(aa)[..n] == ArrivalBytes(aa[0])[..n]
            else n - k <= |Arrived(aa[1..])| && Arrived(aa)[..n] == ArrivalBytes(aa[0]) + Arrived(aa[1..])[..n - k]
  {
    hide ArrivalBytes;
  }

  lemma ArrivalLength(a: Arrival)
    requires Plausible(a)
    ensures |ArrivalBytes(a)| <= CHUNK_MAX + 1
  {
    hide Header, Put16, Put32, SentCrc;
    if !Intact(a) {
      var at, n :| Altered(SentFragment(a.s).payload, a.got, at, n);
      SentPayload(a.s.data);
    }
  }

  lemma PartialArrivalWaits(a: Arrival, pending: seq<Fragment>, n: nat)
    requires Plausible(a) && n < |ArrivalBytes(a)|
    ensures Short(Drain(State(ArrivalBytes(a)[..n], pending, false)))
  {
    ArrivalLength(a);
    hide TryRead, Drain, Packet, Plausible;
    PartialPacketWaits(SentFragment(a.s).(payload := a.got), SentCrc(a.s.data), ArrivalBytes(a)[..n]);
    DrainWaits(State(ArrivalBytes(a)[..n], pending, false));
  }

  lemma {:induction false} ArrivedIsShort(aa: seq<Arrival>, pending: seq<Fragment>, n: nat)
    requires n <= |Arrived(aa)| && forall a | a in aa :: Plausible(a)
    requires Healthy(pending) && !Feed(pending, Sent(IntactOnes(aa))).2
    ensures Short(Drain(State(Arrived(aa)[..n], pending, false)))
    decreases |aa|
  {
    hide ArrivalBytes, TryRead, Drain, Plausible, Intact, Healthy, Settle, Feed, Sent, IntactOnes;
    if aa == [] {
      DrainWaits(State([], pending, false)) by { NothingToRead(); }
    } else {
      var a, rest := aa[0], aa[1..];
      ArrivedSplit(aa, n);
      if n < |ArrivalBytes(a)| {
        PartialArrivalWaits(a, pending, n);
      } else {
        var k := n - |ArrivalBytes(a)|;
        IntactFirst(aa);
        DrainArrival(a, pending, Arrived(rest)[..k]);
        if Intact(a) {
          assert ([a.s] + IntactOnes(rest))[1..] == IntactOnes(rest);
          FeedFirst(pending, [a.s] + IntactOnes(rest));
          ArrivedIsShort(rest, Answer(pending, a.s).1, k);
        } else {
          ArrivedIsShort(rest, pending, k);
        }
      }
    }
  }

  lemma NothingIsHealthy()
    ensures Healthy([])
  {
  }

  // However many packets of a stream are damaged, and however it is cut into chunks: the receiver hands over what it
  // hands over when only the others are sent.
  lemma DamagedAreMissing(aa: seq<Arrival>, chunks: seq<seq<byte>>)
    requires (forall a | a in aa :: Plausible(a)) && !Feed([], Sent(IntactOnes(aa))).2
    requires Concat(chunks) == Arrived(aa) && forall c | c in chunks :: |c| <= CHUNK_MAX
    ensures var r := Feed([], Sent(IntactOnes(aa)));
            RunChunks(State([], [], false), chunks) == (r.0, State([], r.1, false))
  {
    hide Drain, RunChunks, Plausible, Short, Arrived, Feed, Healthy, IntactOnes;
    NothingIsHealthy();
    forall n | 0 <= n <= |Arrived(aa)| ensures Short(Drain(State(Arrived(aa)[..n], [], false))) {
      ArrivedIsShort(aa, [], n);
    }
    ChunksDrain(Arrived(aa), chunks);
    DrainArrived(aa, []);
  }

  lemma {:induction false} IntactAreSent(aa: seq<Arrival>)
    ensures forall s | s in IntactOnes(aa) :: exists i :: 0 <= i < |aa| && aa[i].s == s && Intact(aa[i])
  {
    if aa != [] {
      hide Intact;
      IntactAreSent(aa[1..]);
      forall s | s in IntactOnes(aa) ensures exists i :: 0 <= i < |aa| && aa[i].s == s && Intact(aa[i]) {
        if s in IntactOnes(aa[1..]) {
          var i :| 0 <= i < |aa| - 1 && aa[1..][i].s == s && Intact(aa[1..][i]);
          assert aa[i + 1].s == s;
        } else {
          assert aa[0].s == s;
        }
      }
    }
  }

  // Of single commands exactly the undamaged ones arrive, in order.
  lemma DamagedSinglesAreMissing(aa: seq<Arrival>, chunks: seq<seq<byte>>)
    requires forall a | a in aa :: Plausible(a) && a.s.lastNo == 0
    requires Concat(chunks) == Arrived(aa) && forall c | c in chunks :: |c| <= CHUNK_MAX
    ensures RunChunks(State([], [], false), chunks) == (AsCommands(IntactOnes(aa)), State([], [], false))
  {
    hide Arrived, Feed, RunChunks, IntactOnes;
    IntactAreSent(aa);
    SinglesFeed(IntactOnes(aa));
    DamagedAreMissing(aa, chunks);
  }

  // ---------- damaged messages ----------

  // The places of the undamaged packets.
  function Kept(aa: seq<Arrival>, from: nat): seq<nat>
    requires from <= |aa|
    decreases |aa| - from
  {
    if from == |aa| then []
    else if Intact(aa[from]) then [from] + Kept(aa, from + 1)
    else Kept(aa, from + 1)
  }

  ghost predicate InOrder(kept: seq<nat>, aa: seq<Arrival>, from: nat) {
    && (forall i | 0 <= i < |kept| :: from <= kept[i] < |aa| && Intact(aa[kept[i]]))
    && (forall i, j | 0 <= i < j < |kept| :: kept[i] < kept[j])
  }

  lemma OneMoreInOrder(more: seq<nat>, aa: seq<Arrival>, from: nat)
    requires from < |aa| && InOrder(more, aa, from + 1)
    ensures InOrder(more, aa, from) && (Intact(aa[from]) ==> InOrder([from] + more, aa, from))
  {
    hide Intact;
  }

  // They are in order.
  lemma {:induction false} KeptAre(aa: seq<Arrival>, from: nat)
    requires from <= |aa|
    ensures InOrder(Kept(aa, from), aa, from)
    decreases |aa| - from
  {
    if from < |aa| {
      KeptAre(aa, from + 1);
      OneMoreInOrder(Kept(aa, from + 1), aa, from);
    }
    hide Intact, InOrder;
    if from == |aa| {
      NoneInOrder(aa, from);
    }
  }

  lemma NoneInOrder(aa: seq<Arrival>, from: nat)
    ensures InOrder([], aa, from)
  {
  }

  lemma {:induction false} KeptNames(aa: seq<Arrival>, from: nat)
    requires from <= |aa|
    ensures var kept := Kept(aa, from);
            && |kept| == |IntactOnes(aa[from..])|
            && forall i | 0 <= i < |kept| :: kept[i] < |aa| && IntactOnes(aa[from..])[i] == aa[kept[i]].s
    decreases |aa| - from
  {
    hide Intact, IntactOnes;
    if from < |aa| {
      KeptNames(aa, from + 1);
      assert aa[from..][0] == aa[from] && aa[from..][1..] == aa[from + 1..];
      IntactFirst(aa[from..]);
    } else {
      assert aa[from..] == [];
      NoneIntact();
    }
  }

  lemma NoneIntact()
    ensures IntactOnes([]) == []
  {
  }

  // How many undamaged packets there are in front of a place.
  function Rank(aa: seq<Arrival>, from: nat, p: nat): (r: nat)
    requires from <= p <= |aa|
    ensures r <= p - from
    decreases p - from
  {
    if from == p then 0 else (if Intact(aa[from]) then 1 else 0) + Rank(aa, from + 1, p)
  }

  lemma {:induction false} KeptSplit(aa: seq<Arrival>, from: nat, p: nat)
    requires from <= p <= |aa|
    ensures var kept, r := Kept(aa, from), Rank(aa, from, p); r <= |kept| && kept[r..] == Kept(aa, p)
    decreases p - from
  {
    hide Intact;
    if from < p {
      KeptSplit(aa, from + 1, p);
    }
  }

  // So many places from here on.
  function Places(b: nat, n: nat): (s: seq<nat>)
    ensures |s| == n && forall i | 0 <= i < n :: s[i] == b + i
  {
    seq(n, i => b + i)
  }

  ghost predicate Undamaged(aa: seq<Arrival>, n: nat, b: nat)
    requires b + n <= |aa|
  {
    forall p | b <= p < b + n :: Intact(aa[p])
  }

  lemma {:induction false} UndamagedAreKept(aa: seq<Arrival>, n: nat, b: nat)
    requires b + n <= |aa| && Undamaged(aa, n, b)
    ensures n <= |Kept(aa, b)| && Kept(aa, b)[..n] == Places(b, n)
    decreases n
  {
    hide Intact;
    if n > 0 {
      UndamagedAreKept(aa, n - 1, b + 1);
      assert Kept(aa, b) == [b] + Kept(aa, b + 1);
      assert Places(b, n) == [b] + Places(b + 1, n - 1);
      assert ([b] + Kept(aa, b + 1))[..n] == [b] + Kept(aa, b + 1)[..n - 1];
    }
  }

  lemma KeptRangeIsUndamaged(aa: seq<Arrival>, n: nat, b: nat, s: nat)
    requires n > 0 && b + n <= |aa| && s + n <= |Kept(aa, 0)| && Kept(aa, 0)[s..s + n] == Places(b, n)
    ensures Undamaged(aa, n, b) && s == Rank(aa, 0, b)
  {
    var kept, r := Kept(aa, 0), Rank(aa, 0, b);
    KeptAre(aa, 0);
    KeptSplit(aa, 0, b);
    forall p | b <= p < b + n ensures Intact(aa[p]) {
      assert kept[s..s + n][p - b] == p;
      assert kept[s + (p - b)] == p;
    }
    UndamagedAreKept(aa, 1, b);
    assert kept[r..][0] == b && kept[s..s + n][0] == b;
    hide Kept, Rank, Intact;
    assert kept[r] == b && kept[s] == b;
  }

  // ---------- groups of one size ----------

  lemma AtLeastOnce(d: int, n: int)
    requires d >= 1 && n > 0
    ensures d * n >= n
  {
    assert d * n == (d - 1) * n + n;
    assert (d - 1) * n >= 0;
  }

  lemma OneQuotient(n: int, q: int, r: int, q': int, r': int)
    requires n > 0 && 0 <= r < n && 0 <= r' < n && q * n + r == q' * n + r'
    ensures r == r'
  {
    assert (q - q') * n == q * n - q' * n && (q' - q) * n == q' * n - q * n;
    if q > q' {
      AtLeastOnce(q - q', n);
    } else if q < q' {
      AtLeastOnce(q' - q, n);
    }
  }

  lemma DivMod(x: nat, n: nat)
    requires n > 0
    ensures x == x / n * n + x % n && x % n < n
  {
  }

  lemma ModIs(x: nat, q: int, r: nat, n: nat)
    requires n > 0 && x == q * n + r && r < n
    ensures x % n == r
  {
    DivMod(x, n);
    OneQuotient(n, q, r, x / n, x % n);
  }

  lemma ModOfSum(a: nat, k: nat, n: nat)
    requires n > 0 && a % n == 0
    ensures (a + k) % n == k % n
  {
    var qa, qk := a / n, k / n;
    assert a == qa * n && k == qk * n + k % n;
    assert (qa + qk) * n == qa * n + qk * n;
    ModIs(a + k, qa + qk, k % n, n);
  }

  lemma SmallMod(k: nat, n: nat)
    requires k < n
    ensures k % n == k
  {
    ModIs(k, 0, k, n);
  }

  lemma {:induction false} UniformStarts(own: seq<Send>, at: nat, n: nat, s: nat)
    requires n > 0 && at % n == 0 && at <= |own| && forall p | 0 <= p < |own| :: own[p].lastNo == n - 1
    ensures s in Starts(own, at) <==> at <= s && s % n == 0 && s + n <= |own|
    decreases |own| - at
  {
    if at < |own| && |own| - at > own[at].lastNo {
      ModOfSum(at, n, n);
      ModIs(n, 1, 0, n);
      UniformStarts(own, at + n, n, s);
      if at < s < at + n {
        SmallMod(s - at, n);
        ModOfSum(at, s - at, n);
      }
    }
  }

  // One of the groups is the packets of this many places from here on, and no others.
  ghost predicate FromOwn(aa: seq<Arrival>, n: nat, b: nat) {
    exists s | s in Starts(IntactOnes(aa), 0) :: s + n <= |Kept(aa, 0)| && Kept(aa, 0)[s..s + n] == Places(b, n)
  }

  function DamagedBefore(aa: seq<Arrival>, b: nat): nat
    requires b <= |aa|
  {
    b - Rank(aa, 0, b)
  }

  lemma SameRemainder(b: nat, r: nat, n: nat)
    requires n > 0 && b % n == 0 && r <= b
    ensures r % n == 0 <==> (b - r) % n == 0
  {
    if r % n == 0 {
      ModOfSum(r, b - r, n);
    }
    if (b - r) % n == 0 {
      ModOfSum(b - r, r, n);
    }
  }

  lemma OneSize(aa: seq<Arrival>, n: nat)
    requires forall i | 0 <= i < |aa| :: aa[i].s.lastNo == n - 1
    ensures |IntactOnes(aa)| == |Kept(aa, 0)|
    ensures forall p | 0 <= p < |IntactOnes(aa)| :: IntactOnes(aa)[p].lastNo == n - 1
  {
    assert aa[0..] == aa;
    KeptNames(aa, 0);
    hide Kept, IntactOnes;
  }

  // Messages of one code and size, one after the other: one of them is put together from its own packets exactly when
  // none of those is damaged and the number of damaged packets before them is a multiple of the size.
  lemma OwnPacketsIff(aa: seq<Arrival>, n: nat, b: nat)
    requires n > 0 && b % n == 0 && b + n <= |aa| && forall i | 0 <= i < |aa| :: aa[i].s.lastNo == n - 1
    ensures FromOwn(aa, n, b) <==> Undamaged(aa, n, b) && DamagedBefore(aa, b) % n == 0
  {
    hide Starts, Kept, Rank, IntactOnes, Undamaged;
    var own, kept, r := IntactOnes(aa), Kept(aa, 0), Rank(aa, 0, b);
    OneSize(aa, n);
    SameRemainder(b, r, n);
    SmallMod(0, n);
    if FromOwn(aa, n, b) {
      var s :| s in Starts(own, 0) && s + n <= |kept| && kept[s..s + n] == Places(b, n);
      UniformStarts(own, 0, n, s);
      KeptRangeIsUndamaged(aa, n, b, s);
    }
    if Undamaged(aa, n, b) && DamagedBefore(aa, b) % n == 0 {
      KeptSplit(aa, 0, b);
      UndamagedAreKept(aa, n, b);
      assert kept[r..][..n] == kept[r..r + n];
      UniformStarts(own, 0, n, r);
    }
  }

  // Through bytes and chunks: the deliveries are the undamaged packets in groups of that size.
  lemma DamagedMessages(aa: seq<Arrival>, n: nat, cmd: u16, b: nat, chunks: seq<seq<byte>>)
    requires n > 0 && forall i | 0 <= i < |aa| ::
              Plausible(aa[i]) && aa[i].s.lastNo == n - 1 && Low16(aa[i].s.typeCmd) == cmd
    requires Concat(chunks) == Arrived(aa) && forall c | c in chunks :: |c| <= CHUNK_MAX
    requires b % n == 0 && b + n <= |aa|
    ensures var own := IntactOnes(aa);
            RunChunks(State([], [], false), chunks) == (Wholes(Cut(own)), State([], Sent(Rest(own)), false))
    ensures FromOwn(aa, n, b) <==> Undamaged(aa, n, b) && DamagedBefore(aa, b) % n == 0
  {
    OwnPacketsIff(aa, n, b);
    var own := IntactOnes(aa);
    IntactAreSent(aa);
    OneCodeFeed(own, cmd);
    hide Arrived, Feed, RunChunks, IntactOnes, Wholes, Cut, Rest, FromOwn, Undamaged, DamagedBefore, Intact;
    DamagedAreMissing(aa, chunks);
  }

  lemma OneCodeFeed(own: seq<Send>, cmd: u16)
    requires forall s | s in own :: |s.data| < 0x1_0000 && Low16(s.typeCmd) == cmd
    ensures Feed([], Sent(own)) == (Wholes(Cut(own)), Sent(Rest(own)), false)
  {
    hide Feed, Wholes, Cut, Rest, OfCmd, NotOfCmd, DeliveredTo, DeliveredElsewhere;
    AllOfCmd(own, cmd);
    FeedFromNothing(own, cmd);
    NoOthers();
    AllDelivered(Feed([], Sent(own)).0, cmd);
  }

  // With one packet of a message of two lost, its other packet is delivered with the first one of the next message.
  lemma MixedMessages(a1: Send, b1: Send, b2: Send)
    requires a1.lastNo == b1.lastNo == b2.lastNo == 1
    requires Low16(a1.typeCmd) == Low16(b1.typeCmd) == Low16(b2.typeCmd)
    requires |a1.data| < 0x1_0000 && |b1.data| < 0x1_0000 && |b2.data| < 0x1_0000
    ensures Feed([], Sent([a1, b1, b2]))
         == ([Command(Low16(b1.typeCmd), High16(b1.typeCmd), b1.ipnum, a1.data + b1.data)], [SentFragment(b2)], false)
  {
    var own, cmd := [a1, b1, b2], Low16(a1.typeCmd);
    assert Begun([b2], cmd) && own == [a1, b1] + [b2];
    hide Feed, Whole, Wholes, Cut, Rest, Sent;
    OneCodeFeed(own, cmd);
    CutFirst([a1, b1], [b2]);
    CutWaits([b2], cmd);
    PairIsWhole(a1, b1);
    NoWholes();
    assert [Whole([a1, b1])[0]] + [] == [Whole([a1, b1])[0]];
    SentOne(b2);
  }
}
