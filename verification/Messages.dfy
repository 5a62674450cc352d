// Messages of several packets in a stream: which packets the receiver puts together, and when those are the right ones.
module Messages {
  import opened Wrappers
  import opened Wire
  import opened Reassembly
  import opened Receivers
  import opened Transport

  // One code's sends among single packets of other codes, however the bytes are cut into chunks: they are put together
  // in the order they were sent, as many at a time as the first one says, and the others arrive in order.
  lemma StreamArrives(ss: seq<Send>, cmd: u16, chunks: seq<seq<byte>>)
    requires OthersSingle(ss, cmd) && Small(ss)
    requires Concat(chunks) == Stream(ss) && forall c | c in chunks :: |c| <= CHUNK_MAX
    ensures var r, own := RunChunks(State([], [], false), chunks), OfCmd(ss, cmd);
            && r.1 == State([], Sent(Rest(own)), false)
            && DeliveredTo(r.0, cmd) == Wholes(Cut(own))
            && DeliveredElsewhere(r.0, cmd) == AsCommands(NotOfCmd(ss, cmd))
  {
    hide RunChunks, Feed, Stream, DeliveredTo, DeliveredElsewhere, OfCmd, NotOfCmd, Cut, Rest, Wholes;
    FeedFromNothing(ss, cmd);
    ChunkingIsIrrelevant(ss, chunks);
  }

  lemma FeedFromNothing(ss: seq<Send>, cmd: u16)
    requires OthersSingle(ss, cmd)
    ensures Delivers(Feed([], Sent(ss)), OfCmd(ss, cmd), NotOfCmd(ss, cmd), cmd)
  {
    hide Feed, OfCmd, NotOfCmd, Delivers;
    GroupsFrom([], ss, cmd);
    assert Sent([]) == [] && [] + OfCmd(ss, cmd) == OfCmd(ss, cmd);
  }

  // ---------- where the groups begin ----------

  // The places in a code's sends where a group begins that becomes complete.
  function Starts(own: seq<Send>, at: nat): seq<nat>
    decreases |own| - at
  {
    if at >= |own| || |own| - at <= own[at].lastNo then [] else [at] + Starts(own, at + own[at].lastNo + 1)
  }

  lemma {:induction false} StartsFit(own: seq<Send>, at: nat, g: nat)
    requires g < |Starts(own, at)|
    ensures var s := Starts(own, at)[g]; at <= s < |own| && s + own[s].lastNo < |own|
    decreases |own| - at
  {
    if g > 0 {
      StartsFit(own, at + own[at].lastNo + 1, g - 1);
    }
  }

  lemma CutNext(own: seq<Send>, at: nat)
    requires at < |own| && |own| - at > own[at].lastNo
    ensures var n := own[at].lastNo + 1;
            Cut(own[at..]) == [own[at..at + n]] + Cut(own[at + n..]) && Rest(own[at..]) == Rest(own[at + n..])
  {
    var n := own[at].lastNo + 1;
    assert own[at..][0] == own[at] && own[at..][..n] == own[at..at + n] && own[at..][n..] == own[at + n..];
  }

  // The groups are those at the starts, in order.
  lemma {:induction false} CutAtStart(own: seq<Send>, at: nat, g: nat)
    requires g < |Starts(own, at)|
    ensures var s := Starts(own, at)[g];
            && s < |own| && s + own[s].lastNo < |own|
            && g < |Cut(own[at..])| && Cut(own[at..])[g] == own[s..s + own[s].lastNo + 1]
    decreases |own| - at
  {
    hide Cut;
    StartsFit(own, at, g);
    CutNext(own, at);
    if g > 0 {
      CutAtStart(own, at + own[at].lastNo + 1, g - 1);
    }
  }

  lemma {:induction false} AsManyAsStarts(own: seq<Send>, at: nat)
    requires at <= |own|
    ensures |Cut(own[at..])| == |Starts(own, at)|
    decreases |own| - at
  {
    hide Cut;
    if at < |own| && |own| - at > own[at].lastNo {
      CutNext(own, at);
      AsManyAsStarts(own, at + own[at].lastNo + 1);
    } else {
      CutEnds(own[at..]);
    }
  }

  lemma CutEnds(ss: seq<Send>)
    requires ss == [] || |ss| <= ss[0].lastNo
    ensures Cut(ss) == []
  {
  }

  // ---------- one message among single packets ----------

  // The places of a message's fragments among the sends of its code; the others are single packets.
  ghost predicate MessageAt(own: seq<Send>, places: seq<nat>) {
    && |places| >= 2
    && (forall i, j | 0 <= i < j < |places| :: places[i] < places[j])
    && (forall i | 0 <= i < |places| :: places[i] < |own| && own[places[i]].lastNo == |places| - 1)
    && (forall p | 0 <= p < |own| && p !in places :: own[p].lastNo == 0)
  }

  // One of the commands put together is this message's fragments, and no other packet.
  ghost predicate FromOwnFragments(own: seq<Send>, places: seq<nat>) {
    exists s | s in Starts(own, 0) :: IsRange(places, s) && s < |own| && |places| == own[s].lastNo + 1
  }

  predicate IsRange(places: seq<nat>, s: nat) {
    forall i | 0 <= i < |places| :: places[i] == s + i
  }

  // No other send of the code stands between the first and the last fragment.
  predicate Unbroken(places: seq<nat>)
    requires places != []
  {
    forall p | places[0] < p < places[|places| - 1] :: p in places
  }

  lemma {:induction false} UnbrokenUpTo(places: seq<nat>, k: nat)
    requires k < |places| && Unbroken(places) && forall i, j | 0 <= i < j < |places| :: places[i] < places[j]
    ensures forall i | 0 <= i <= k :: places[i] == places[0] + i
  {
    if k > 0 {
      UnbrokenUpTo(places, k - 1);
      assert places[k - 1] + 1 == places[k] || places[k - 1] + 1 in places;
    }
  }

  lemma UnbrokenIsRange(places: seq<nat>)
    requires places != [] && forall i, j | 0 <= i < j < |places| :: places[i] < places[j]
    ensures Unbroken(places) <==> IsRange(places, places[0])
  {
    if Unbroken(places) {
      UnbrokenUpTo(places, |places| - 1);
    }
    if IsRange(places, places[0]) {
      forall p | places[0] < p < places[|places| - 1] ensures p in places {
        assert places[p - places[0]] == p;
      }
    }
  }

  lemma {:induction false} StartsAfterSingles(own: seq<Send>, at: nat, first: nat)
    requires at <= first < |own| && |own| - first > own[first].lastNo
    requires forall p | at <= p < first :: own[p].lastNo == 0
    ensures first in Starts(own, at) && Rest(own[at..]) == Rest(own[first + own[first].lastNo + 1..])
    decreases first - at
  {
    hide Cut, Rest;
    CutNext(own, at);
    if at < first {
      StartsAfterSingles(own, at + 1, first);
    }
  }

  lemma {:induction false} SinglesLeaveNothing(ss: seq<Send>)
    requires forall p | 0 <= p < |ss| :: ss[p].lastNo == 0
    ensures Rest(ss) == []
    decreases |ss|
  {
    if ss != [] {
      SinglesLeaveNothing(ss[1..]);
    }
  }

  lemma UnbrokenArrives(own: seq<Send>, places: seq<nat>)
    requires MessageAt(own, places) && IsRange(places, places[0])
    ensures places[0] in Starts(own, 0) && Rest(own) == []
  {
    var s, n := places[0], |places|;
    assert places[n - 1] == s + n - 1;
    forall p | 0 <= p < |own| && !(s <= p < s + n) ensures own[p].lastNo == 0 {
      assert p !in places;
    }
    hide Starts, Rest;
    StartsAfterSingles(own, 0, s);
    assert own[0..] == own;
    SinglesLeaveNothing(own[s + n..]);
  }

  // A message among single packets of its own code is put together from its own fragments, with nothing left pending,
  // exactly when none of those stands between its first and its last fragment.
  lemma OwnFragmentsIff(own: seq<Send>, places: seq<nat>)
    requires MessageAt(own, places)
    ensures FromOwnFragments(own, places) && Rest(own) == [] <==> Unbroken(places)
    ensures FromOwnFragments(own, places) <==> Unbroken(places)
  {
    UnbrokenIsRange(places);
    if Unbroken(places) {
      UnbrokenArrives(own, places);
    }
    hide Starts, Rest, Unbroken;
    if FromOwnFragments(own, places) {
      var s :| s in Starts(own, 0) && IsRange(places, s);
      assert places[0] == s + 0;
    }
  }

  // The same of a stream with single packets of other codes anywhere, through bytes and chunks.
  lemma MessageInStream(ss: seq<Send>, cmd: u16, places: seq<nat>, chunks: seq<seq<byte>>)
    requires OthersSingle(ss, cmd) && Small(ss) && MessageAt(OfCmd(ss, cmd), places)
    requires Concat(chunks) == Stream(ss) && forall c | c in chunks :: |c| <= CHUNK_MAX
    ensures var r, own := RunChunks(State([], [], false), chunks), OfCmd(ss, cmd);
            && DeliveredTo(r.0, cmd) == Wholes(Cut(own))
            && DeliveredElsewhere(r.0, cmd) == AsCommands(NotOfCmd(ss, cmd))
            && (FromOwnFragments(own, places) && r.1 == State([], [], false) <==> Unbroken(places))
  {
    hide OfCmd, NotOfCmd, RunChunks, Stream, Wholes, Cut, Rest, MessageAt, FromOwnFragments, Unbroken;
    StreamArrives(ss, cmd, chunks);
    OwnFragmentsIff(OfCmd(ss, cmd), places);
    assert Sent([]) == [];
  }

  // A single packet of the message's code between its two fragments is taken for the second: it completes the message,
  // and the true second fragment is left on the list.
  lemma MergedMessage(a1: Send, x: Send, a2: Send)
    requires a1.lastNo == a2.lastNo == 1 && x.lastNo == 0
    requires Low16(a1.typeCmd) == Low16(x.typeCmd) == Low16(a2.typeCmd)
    requires |a1.data| < 0x1_0000 && |x.data| < 0x1_0000 && |a2.data| < 0x1_0000
    ensures Feed([], Sent([a1, x, a2]))
         == ([Command(Low16(x.typeCmd), High16(x.typeCmd), x.ipnum, a1.data + x.data)], [SentFragment(a2)], false)
  {
    var ss, cmd := [a1, x, a2], Low16(a1.typeCmd);
    assert OthersSingle(ss, cmd) && Begun([a2], cmd) && ss == [a1, x] + [a2];
    hide Feed, Whole, Wholes, Cut, Rest, OfCmd, NotOfCmd, DeliveredTo, DeliveredElsewhere, Sent, AsCommands;
    AllOfCmd(ss, cmd);
    FeedFromNothing(ss, cmd);
    CutFirst([a1, x], [a2]);
    CutWaits([a2], cmd);
    PairIsWhole(a1, x);
    NoWholes();
    assert [Whole([a1, x])[0]] + [] == [Whole([a1, x])[0]];
    NoOthers();
    SentOne(a2);
    AllDelivered(Feed([], Sent(ss)).0, cmd);
  }

  lemma PairIsWhole(a: Send, b: Send)
    ensures Whole([a, b]) == [Command(Low16(b.typeCmd), High16(b.typeCmd), b.ipnum, a.data + b.data)]
  {
    assert [a, b][1..] == [b] && [b][1..] == [] && Datas([b]) == b.data + [] == b.data;
  }

  lemma NoOthers()
    ensures AsCommands([]) == []
  {
  }

  lemma SentOne(s: Send)
    ensures Sent([s]) == [SentFragment(s)]
  {
  }

  // ---------- messages one after the other ----------

  // A stretch of a stream: of one code single packets, a message's packets without another of that code in between, and
  // single packets again; of other codes single packets anywhere.
  datatype Stretch = Stretch(ss: seq<Send>, cmd: u16, before: seq<Send>, message: seq<Send>, after: seq<Send>)

  predicate AllSingle(ss: seq<Send>) {
    forall s | s in ss :: s.lastNo == 0
  }

  ghost predicate OneMessage(t: Stretch) {
    && OthersSingle(t.ss, t.cmd) && Small(t.ss)
    && OfCmd(t.ss, t.cmd) == t.before + t.message + t.after && AllSingle(t.before) && AllSingle(t.after)
    && t.message != [] && forall s | s in t.message :: s.lastNo == |t.message| - 1
  }

  function SinglesAndMessage(t: Stretch): seq<Command> {
    AsCommands(t.before) + Whole(t.message) + AsCommands(t.after)
  }

  lemma SingleWhole(s: Send)
    ensures Whole([s]) == [AsCommand(s)]
  {
    assert [s][1..] == [] && s.data + [] == s.data;
    assert Datas([s]) == s.data + Datas([]);
  }

  lemma AllSingleFirst(ss: seq<Send>)
    requires AllSingle(ss) && ss != []
    ensures ss[0].lastNo == 0 && AllSingle(ss[1..])
  {
    assert ss[0] in ss && forall s | s in ss[1..] :: s in ss;
  }

  lemma {:induction false} SinglesCut(ss: seq<Send>, rest: seq<Send>)
    requires AllSingle(ss)
    ensures Wholes(Cut(ss + rest)) == AsCommands(ss) + Wholes(Cut(rest)) && Rest(ss + rest) == Rest(rest)
  {
    hide *;
    if ss == [] {
      NoOthers();
      assert ss + rest == rest && [] + Wholes(Cut(rest)) == Wholes(Cut(rest));
    } else {
      var s, later := ss[0], ss[1..];
      AllSingleFirst(ss);
      assert ss + rest == [s] + (later + rest);
      CutFirst([s], later + rest);
      SingleWhole(s);
      SinglesCut(later, rest);
      CommandsFirst(ss);
      assert [AsCommand(s)] + (AsCommands(later) + Wholes(Cut(rest)))
          == [AsCommand(s)] + AsCommands(later) + Wholes(Cut(rest));
    }
  }

  lemma CommandsFirst(ss: seq<Send>)
    requires ss != []
    ensures AsCommands(ss) == [AsCommand(ss[0])] + AsCommands(ss[1..])
  {
    hide AsCommand;
  }

  lemma MessageCut(t: Stretch)
    requires OneMessage(t)
    ensures var own := OfCmd(t.ss, t.cmd); Wholes(Cut(own)) == SinglesAndMessage(t) && Rest(own) == []
  {
    var tail := t.message + t.after;
    assert t.message[0] in t.message;
    assert t.before + t.message + t.after == t.before + tail;
    hide Cut, Rest, Wholes, OfCmd;
    SinglesCut(t.before, tail);
    CutFirst(t.message, t.after);
    SinglesCut(t.after, []);
    assert t.after + [] == t.after;
    NothingCut();
    assert AsCommands(t.after) + [] == AsCommands(t.after);
    assert Whole(t.message) == [Whole(t.message)[0]];
  }

  lemma NothingCut()
    ensures Wholes(Cut([])) == [] && Rest([]) == []
  {
  }

  // One message in such a stretch arrives once and whole, between the single commands of its code, in order; the
  // commands of other codes arrive in order; nothing stays pending.
  lemma InterleavedMessageArrives(t: Stretch, chunks: seq<seq<byte>>)
    requires OneMessage(t)
    requires Concat(chunks) == Stream(t.ss) && forall c | c in chunks :: |c| <= CHUNK_MAX
    ensures var r := RunChunks(State([], [], false), chunks);
            && r.1 == State([], [], false)
            && DeliveredTo(r.0, t.cmd) == SinglesAndMessage(t)
            && DeliveredElsewhere(r.0, t.cmd) == AsCommands(NotOfCmd(t.ss, t.cmd))
  {
    hide RunChunks, Stream, OfCmd, NotOfCmd, Cut, Rest, Wholes, SinglesAndMessage;
    MessageCut(t);
    StreamArrives(t.ss, t.cmd, chunks);
    assert Sent([]) == [];
  }

  function AllSends(ts: seq<Stretch>): seq<Send> {
    if ts == [] then [] else ts[0].ss + AllSends(ts[1..])
  }

  // What comes out of each stretch on its own, one after the other.
  function AllOut(ts: seq<Stretch>): seq<Command> {
    if ts == [] then [] else Feed([], Sent(ts[0].ss)).0 + AllOut(ts[1..])
  }

  lemma StretchFeeds(t: Stretch)
    requires OneMessage(t)
    ensures var r := Feed([], Sent(t.ss));
            && r.1 == [] && !r.2 && Small(t.ss)
            && DeliveredTo(r.0, t.cmd) == SinglesAndMessage(t)
            && DeliveredElsewhere(r.0, t.cmd) == AsCommands(NotOfCmd(t.ss, t.cmd))
  {
    hide Feed, OfCmd, NotOfCmd, DeliveredTo, DeliveredElsewhere, Cut, Rest, Wholes, SinglesAndMessage;
    MessageCut(t);
    FeedFromNothing(t.ss, t.cmd);
    assert Sent([]) == [];
  }

  lemma SendsJoin(ss: seq<Send>, ts: seq<Send>)
    requires Small(ss) && Small(ts)
    ensures Sent(ss + ts) == Sent(ss) + Sent(ts) && Small(ss + ts)
  {
    hide SentFragment;
  }

  lemma FeedNothing()
    ensures Feed([], Sent([])) == ([], [], false) && Small([])
  {
  }

  lemma {:induction false} StretchesFeed(ts: seq<Stretch>)
    requires forall t | t in ts :: OneMessage(t)
    ensures Feed([], Sent(AllSends(ts))) == (AllOut(ts), [], false) && Small(AllSends(ts))
    decreases |ts|
  {
    hide Feed, Sent, OneMessage, Small;
    if ts == [] {
      FeedNothing();
    } else {
      var t, rest := ts[0], AllSends(ts[1..]);
      StretchFeeds(t);
      StretchesFeed(ts[1..]);
      FeedAppend([], Sent(t.ss), Sent(rest));
      SendsJoin(t.ss, rest);
    }
  }

  // Any number of such stretches, one after the other: each gives its message once and whole and its other commands in
  // order, and the stretches follow each other.
  lemma MessagesArrive(ts: seq<Stretch>, chunks: seq<seq<byte>>)
    requires forall t | t in ts :: OneMessage(t)
    requires Concat(chunks) == Stream(AllSends(ts)) && forall c | c in chunks :: |c| <= CHUNK_MAX
    ensures RunChunks(State([], [], false), chunks) == (AllOut(ts), State([], [], false))
    ensures forall t | t in ts :: var out := Feed([], Sent(t.ss)).0;
              && DeliveredTo(out, t.cmd) == SinglesAndMessage(t)
              && DeliveredElsewhere(out, t.cmd) == AsCommands(NotOfCmd(t.ss, t.cmd))
  {
    hide RunChunks, Feed, Stream, DeliveredTo, DeliveredElsewhere, NotOfCmd, SinglesAndMessage, AllSends, AllOut,
        OneMessage;
    StretchesFeed(ts);
    ChunkingIsIrrelevant(AllSends(ts), chunks);
    forall t | t in ts
      ensures var out := Feed([], Sent(t.ss)).0;
              && DeliveredTo(out, t.cmd) == SinglesAndMessage(t)
              && DeliveredElsewhere(out, t.cmd) == AsCommands(NotOfCmd(t.ss, t.cmd))
    {
      StretchFeeds(t);
    }
  }
}
