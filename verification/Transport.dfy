// End to end: what is sent, cut into chunks any way at all, is what msgProc is handed.
module Transport {
  import opened Wrappers
  import opened Wire
  import opened Reassembly
  import opened Receivers
  import opened Senders

  // ---------- draining a longer stream ----------

  function More(st: State, t: seq<byte>): State {
    st.(bytes := st.bytes + t)
  }

  function Prepend(c: Option<Command>, d: (seq<Command>, State)): (seq<Command>, State) {
    if c.None? then d else ([c.value] + d.0, d.1)
  }

  // A drain goes packet by packet.
  lemma DrainByPacket(st: State, r: (Option<Command>, State))
    requires !st.dangling && TryRead(st.bytes) != 0 && r == TakePacket(st)
    ensures r.0.None? ==> !r.1.dangling
    ensures Drain(st) == Prepend(r.0, Drain(r.1))
  {
    DrainUnfolds(st, Parse(st));
    if r.0.None? {
      DrainUnfolds(r.1, Parse(r.1));
    }
  }

  lemma DrainWaits(st: State)
    requires st.dangling || TryRead(st.bytes) == 0
    ensures Drain(st) == ([], st)
  {
  }

  lemma TakePacketMore(st: State, t: seq<byte>)
    requires TryRead(st.bytes) != 0
    ensures TryRead(More(st, t).bytes) != 0
    ensures TakePacket(More(st, t)) == (TakePacket(st).0, More(TakePacket(st).1, t))
  {
    TryReadExtends(st.bytes, t);
  }

  lemma PrependFirst(c: Option<Command>, d: (seq<Command>, State), e: (seq<Command>, State))
    ensures Prepend(c, (d.0 + e.0, e.1)) == (Prepend(c, d).0 + e.0, e.1)
  {
    if c.Some? {
      assert [c.value] + (d.0 + e.0) == [c.value] + d.0 + e.0;
    }
  }

  lemma DrainMoreByPacket(st: State, t: seq<byte>, r: (Option<Command>, State))
    requires !st.dangling && TryRead(st.bytes) != 0 && r == TakePacket(st)
    ensures Drain(More(st, t)) == Prepend(r.0, Drain(More(r.1, t)))
  {
    TakePacketMore(st, t);
    DrainByPacket(More(st, t), (r.0, More(r.1, t)));
  }

  // Draining what is there and then the rest is draining it all at once: for any bytes whatever.
  lemma {:induction false} DrainMore(st: State, t: seq<byte>)
    ensures var d := Drain(st);
            var e := Drain(More(d.1, t));
            Drain(More(st, t)) == (d.0 + e.0, e.1)
    decreases |st.bytes|
  {
    var d := Drain(st);
    var e := Drain(More(d.1, t));
    if st.dangling || TryRead(st.bytes) == 0 {
      DrainWaits(st);
      assert [] + e.0 == e.0;
    } else {
      var r := TakePacket(st);
      DrainMore(r.1, t);
      DrainByPacket(st, r);
      DrainMoreByPacket(st, t, r);
      PrependFirst(r.0, Drain(r.1), e);
    }
  }

  // ---------- a stream of sent packets ----------

  const CHUNK_MAX: nat := 20480       // FIFO_MAX_LEN / 2, what one recv() can bring
  const PAYLOAD_MAX: nat := 20461     // the longest payload whose packet still leaves room for a whole chunk

  function Stream(ss: seq<Send>): seq<byte> {
    if ss == [] then [] else SendBytes(ss[0]) + Stream(ss[1..])
  }

  function Sent(ss: seq<Send>): (fs: seq<Fragment>)
    ensures |fs| == |ss| && forall i | 0 <= i < |ss| :: fs[i] == SentFragment(ss[i])
  {
    seq(|ss|, i requires 0 <= i < |ss| => SentFragment(ss[i]))
  }

  // The receiver's list, fed fragment by fragment.
  function Feed(pending: seq<Fragment>, fs: seq<Fragment>): (seq<Command>, seq<Fragment>, bool)
    decreases |fs|
  {
    if fs == [] then ([], pending, false)
    else
      var s := Settle(pending + [fs[0]], fs[0]);
      var out := if s.0.Some? then [s.0.value] else [];
      if s.2 then (out, s.1, true)
      else var r := Feed(s.1, fs[1..]); (out + r.0, r.1, r.2)
  }

  lemma TakeSent(pending: seq<Fragment>, s: Send, tail: seq<byte>)
    ensures var st := State(SendBytes(s) + tail, pending, false);
            var r := Settle(pending + [SentFragment(s)], SentFragment(s));
            TryRead(st.bytes) != 0 && TakePacket(st) == (r.0, State(tail, r.1, r.2))
  {
    PacketCutOff(SentFragment(s), SentCrc(s.data), tail);
    PacketDecodes(SentFragment(s), SentCrc(s.data));
    SentIsAccepted(s);
  }

  // The list's answer to the fragment of one send.
  function Answer(pending: seq<Fragment>, s: Send): (Option<Command>, seq<Fragment>, bool) {
    Settle(pending + [SentFragment(s)], SentFragment(s))
  }

  function Lead(c: Option<Command>, d: (seq<Command>, seq<Fragment>, bool)): (seq<Command>, seq<Fragment>, bool) {
    if c.None? then d else ([c.value] + d.0, d.1, d.2)
  }

  lemma FeedFirst(pending: seq<Fragment>, ss: seq<Send>)
    requires ss != []
    ensures var a := Answer(pending, ss[0]);
            Feed(pending, Sent(ss)) == Lead(a.0, if a.2 then ([], a.1, true) else Feed(a.1, Sent(ss[1..])))
  {
    assert Sent(ss)[0] == SentFragment(ss[0]);
    assert Sent(ss)[1..] == Sent(ss[1..]);
    hide Settle;
    var a := Answer(pending, ss[0]);
    if a.2 {
      if a.0.Some? {
        assert [a.0.value] + [] == [a.0.value];
      }
    } else {
      assert [] + Feed(a.1, Sent(ss[1..])).0 == Feed(a.1, Sent(ss[1..])).0;
    }
  }

  lemma DrainSent(pending: seq<Fragment>, s: Send, tail: seq<byte>)
    ensures var a := Answer(pending, s);
            Drain(State(SendBytes(s) + tail, pending, false)) == Prepend(a.0, Drain(State(tail, a.1, a.2)))
  {
    var a := Answer(pending, s);
    TakeSent(pending, s, tail);
    DrainByPacket(State(SendBytes(s) + tail, pending, false), (a.0, State(tail, a.1, a.2)));
  }

  // A drain's outcome agrees with what feeding the list gives, down to the bytes left over.
  ghost predicate Agrees(d: (seq<Command>, State), r: (seq<Command>, seq<Fragment>, bool), tail: seq<byte>) {
    d.0 == r.0 && d.1.pending == r.1 && d.1.dangling == r.2 && (!r.2 ==> d.1.bytes == tail)
  }

  // Draining the bytes of sent packets feeds their fragments to the list, one after the other.
  lemma {:induction false} DrainStream(ss: seq<Send>, pending: seq<Fragment>, tail: seq<byte>)
    requires TryRead(tail) == 0
    ensures Agrees(Drain(State(Stream(ss) + tail, pending, false)), Feed(pending, Sent(ss)), tail)
    decreases |ss|
  {
    hide SendBytes, TryRead, Drain, Settle;
    if ss == [] {
      assert Stream(ss) + tail == tail;
      DrainWaits(State(tail, pending, false));
    } else {
      var a := Answer(pending, ss[0]);
      var rest := Stream(ss[1..]) + tail;
      assert Stream(ss) + tail == SendBytes(ss[0]) + rest;
      DrainSent(pending, ss[0], rest);
      FeedFirst(pending, ss);
      if a.2 {
        DrainWaits(State(rest, a.1, a.2));
      } else {
        DrainStream(ss[1..], a.1, tail);
      }
    }
  }

  predicate Small(ss: seq<Send>) {
    forall s | s in ss :: |s.data| <= PAYLOAD_MAX
  }

  lemma PartialWaits(s: Send, pending: seq<Fragment>, bytes: seq<byte>)
    requires |s.data| <= PAYLOAD_MAX
    requires |bytes| < |SendBytes(s)| && bytes == SendBytes(s)[..|bytes|]
    ensures Drain(State(bytes, pending, false)) == ([], State(bytes, pending, false)) && |bytes| <= CHUNK_MAX
  {
    hide TryRead, Header, Drain;
    PartialPacketWaits(SentFragment(s), SentCrc(s.data), bytes);
    DrainWaits(State(bytes, pending, false));
  }

  lemma StreamSplit(ss: seq<Send>, n: nat)
    requires ss != [] && n <= |Stream(ss)|
    ensures var k := |SendBytes(ss[0])|;
            if n < k then Stream(ss)[..n] == SendBytes(ss[0])[..n]
            else n - k <= |Stream(ss[1..])| && Stream(ss)[..n] == SendBytes(ss[0]) + Stream(ss[1..])[..n - k]
  {
    hide SendBytes;
  }

  predicate Short(d: (seq<Command>, State)) {
    !d.1.dangling && |d.1.bytes| <= CHUNK_MAX
  }

  // However much of the stream has arrived, a drain leaves less than one packet of it behind.
  lemma {:induction false} LeftoverIsShort(ss: seq<Send>, pending: seq<Fragment>, n: nat)
    requires n <= |Stream(ss)| && Small(ss) && !Feed(pending, Sent(ss)).2
    ensures Short(Drain(State(Stream(ss)[..n], pending, false)))
    decreases |ss|
  {
    hide SendBytes, TryRead, Drain, Settle, Feed;
    if ss == [] {
      DrainWaits(State([], pending, false));
    } else {
      StreamSplit(ss, n);
      assert ss[0] in ss;
      if n < |SendBytes(ss[0])| {
        PartialWaits(ss[0], pending, Stream(ss)[..n]);
      } else {
        var k := n - |SendBytes(ss[0])|;
        FeedFirst(pending, ss);
        DrainSent(pending, ss[0], Stream(ss[1..])[..k]);
        LeftoverIsShort(ss[1..], Answer(pending, ss[0]).1, k);
      }
    }
  }

  // ---------- chunks ----------

  lemma RunFirst(st: State, chunks: seq<seq<byte>>)
    requires chunks != [] && !st.dangling && |st.bytes| + |chunks[0]| <= FIFO_MAX_LEN
    ensures var d := Drain(More(st, chunks[0]));
            var r := RunChunks(d.1, chunks[1..]);
            RunChunks(st, chunks) == (d.0 + r.0, r.1)
  {
  }

  // What has come out so far and what is still to come make up the whole.
  ghost predicate Adds(whole: (seq<Command>, State), d: (seq<Command>, State), r: (seq<Command>, State)) {
    whole == (d.0 + r.0, r.1)
  }

  lemma AddsUp(whole: (seq<Command>, State), d: (seq<Command>, State), e: (seq<Command>, State),
               d': (seq<Command>, State), r: (seq<Command>, State), r': (seq<Command>, State))
    requires Adds(d', d, e) && Adds(r, e, r') && Adds(whole, d', r')
    ensures Adds(whole, d, r)
  {
    assert d.0 + (e.0 + r'.0) == d.0 + e.0 + r'.0;
  }

  lemma NothingToAdd(whole: (seq<Command>, State))
    ensures Adds(whole, whole, ([], whole.1))
  {
    assert whole.0 + [] == whole.0;
  }

  // However much of these bytes has arrived, a drain leaves room for a whole chunk.
  ghost predicate AlwaysShort(stream: seq<byte>) {
    forall n | 0 <= n <= |stream| :: Short(Drain(State(stream[..n], [], false)))
  }

  lemma {:induction false} RunIsDrain(stream: seq<byte>, done: seq<byte>, chunks: seq<seq<byte>>)
    requires done + Concat(chunks) == stream && AlwaysShort(stream)
    requires forall c | c in chunks :: |c| <= CHUNK_MAX
    ensures var d := Drain(State(done, [], false));
            Adds(Drain(State(stream, [], false)), d, RunChunks(d.1, chunks))
    decreases |chunks|
  {
    hide TryRead, Drain, RunChunks, Adds, Accept;
    var d := Drain(State(done, [], false));
    if chunks == [] {
      assert done == stream;
      NothingToAdd(d);
      RunOfNothing(d.1);
    } else {
      var c := chunks[0];
      assert c in chunks;
      assert stream[..|done|] == done;
      RunFirst(d.1, chunks);
      DrainMore(State(done, [], false), c);
      assert (done + c) + Concat(chunks[1..]) == done + Concat(chunks);
      RunIsDrain(stream, done + c, chunks[1..]);
      var e := Drain(More(d.1, c));
      AddsUp(Drain(State(stream, [], false)), d, e, Drain(State(done + c, [], false)),
             RunChunks(d.1, chunks), RunChunks(e.1, chunks[1..]));
    }
  }

  // Every way to cut the bytes into chunks is draining them at once.
  lemma ChunksDrain(stream: seq<byte>, chunks: seq<seq<byte>>)
    requires Concat(chunks) == stream && AlwaysShort(stream)
    requires forall c | c in chunks :: |c| <= CHUNK_MAX
    ensures RunChunks(State([], [], false), chunks) == Drain(State(stream, [], false))
  {
    hide TryRead, Drain, RunChunks, AlwaysShort;
    var r := RunChunks(State([], [], false), chunks);
    assert [] + Concat(chunks) == Concat(chunks);
    RunIsDrain(stream, [], chunks);
    NothingWaits();
    assert [] + r.0 == r.0;
  }

  lemma NothingWaits()
    ensures Drain(State([], [], false)) == ([], State([], [], false))
  {
    DrainWaits(State([], [], false));
  }

  lemma RunOfNothing(st: State)
    ensures RunChunks(st, []) == ([], st)
  {
  }

  // The main result: for every list of sends with payloads of at most 20461 bytes that does not make the pending
  // list dangle, every way to cut the sent bytes into chunks of at most 20480 bytes makes the receive loop hand
  // over exactly what feeding the fragments in order hands over, and leaves no byte behind.
  lemma ChunkingIsIrrelevant(ss: seq<Send>, chunks: seq<seq<byte>>)
    requires Concat(chunks) == Stream(ss) && Small(ss) && !Feed([], Sent(ss)).2
    requires forall c | c in chunks :: |c| <= CHUNK_MAX
    ensures RunChunks(State([], [], false), chunks) == (Feed([], Sent(ss)).0, State([], Feed([], Sent(ss)).1, false))
  {
    hide SendBytes, TryRead, Drain, Feed, RunChunks, Short;
    forall n | 0 <= n <= |Stream(ss)| ensures Short(Drain(State(Stream(ss)[..n], [], false))) {
      LeftoverIsShort(ss, [], n);
    }
    ChunksDrain(Stream(ss), chunks);
    WholeStream(ss, Drain(State(Stream(ss), [], false)));
  }

  lemma WholeStream(ss: seq<Send>, d: (seq<Command>, State))
    requires d == Drain(State(Stream(ss), [], false))
    ensures Agrees(d, Feed([], Sent(ss)), [])
  {
    hide SendBytes, Drain, Feed;
    assert Stream(ss) + [] == Stream(ss);
    DrainStream(ss, [], []);
  }

  // ---------- sends that are one packet each ----------

  function AsCommand(s: Send): Command {
    Command(Low16(s.typeCmd), High16(s.typeCmd), s.ipnum, s.data)
  }

  function AsCommands(ss: seq<Send>): (cs: seq<Command>)
    ensures |cs| == |ss| && forall i | 0 <= i < |ss| :: cs[i] == AsCommand(ss[i])
  {
    seq(|ss|, i requires 0 <= i < |ss| => AsCommand(ss[i]))
  }

  // A packet that is its own last one is delivered at once, and leaves the fragments of another command alone.
  lemma SingleSettles(pending: seq<Fragment>, f: Fragment)
    requires f.lastNo == 0 && forall g | g in pending :: g.cmd != f.cmd
    ensures Settle(pending + [f], f) == (Some(Command(f.cmd, f.kind, f.ipnum, f.payload)), pending, false)
  {
    hide Strip;
    var p := pending + [f];
    NoneOf(pending, f.cmd);
    FiledCounts(pending, f, f.cmd);
    GatherAppend(pending, [f], f.cmd);
    assert !Sandwiched(p, f.cmd);
    StripIsExact(p, f.cmd);
    OthersAppend(pending, [f], f.cmd);
    OthersOfOthers(pending, f.cmd);
    assert [f][1..] == [] && Others([f], f.cmd) == [] && Gather([f], f.cmd) == f.payload;
    assert [] + f.payload == f.payload && pending + [] == pending;
  }

  lemma {:induction false} NoneOf(p: seq<Fragment>, cmd: u16)
    requires forall g | g in p :: g.cmd != cmd
    ensures Count(p, cmd) == 0 && FirstLastNo(p, cmd) == -1 && Gather(p, cmd) == []
  {
    if p != [] {
      NoneOf(p[1..], cmd);
    }
  }

  lemma {:induction false} GatherAppend(s: seq<Fragment>, t: seq<Fragment>, cmd: u16)
    ensures Gather(s + t, cmd) == Gather(s, cmd) + Gather(t, cmd)
  {
    if s == [] {
      assert s + t == t;
    } else {
      assert (s + t)[1..] == s[1..] + t;
      GatherAppend(s[1..], t, cmd);
    }
  }

  lemma {:induction false} SinglesFeed(ss: seq<Send>)
    requires forall s | s in ss :: s.lastNo == 0 && |s.data| < 0x1_0000
    ensures Feed([], Sent(ss)) == (AsCommands(ss), [], false)
    decreases |ss|
  {
    hide Settle, SendBytes, Accepted;
    if ss != [] {
      assert ss[0] in ss;
      SentIsAccepted(ss[0]);
      SingleSettles([], SentFragment(ss[0]));
      FeedFirst([], ss);
      SinglesFeed(ss[1..]);
      assert AsCommands(ss) == [AsCommand(ss[0])] + AsCommands(ss[1..]);
    }
  }

  // Every sequence of single-packet sends arrives as exactly the same commands in the same order, none lost,
  // duplicated or merged, however the bytes were cut into chunks.
  lemma SinglesArrive(ss: seq<Send>, chunks: seq<seq<byte>>)
    requires forall s | s in ss :: s.lastNo == 0 && |s.data| <= PAYLOAD_MAX
    requires Concat(chunks) == Stream(ss) && forall c | c in chunks :: |c| <= CHUNK_MAX
    ensures RunChunks(State([], [], false), chunks) == (AsCommands(ss), State([], [], false))
  {
    SinglesFeed(ss);
    ChunkingIsIrrelevant(ss, chunks);
  }

  lemma RunLast(st: State, c: seq<byte>)
    requires !st.dangling
    ensures RunChunks(st, [c]) == Drain(Accept(st, c))
  {
    hide Drain;
    var d := Drain(Accept(st, c));
    assert d.0 + [] == d.0;
  }

  lemma WaitsWithOneMore(st: State, c: seq<byte>, chunks: seq<seq<byte>>)
    requires !st.dangling && |st.bytes| + |c| <= FIFO_MAX_LEN && TryRead(st.bytes + c) == 0
    ensures RunChunks(st, [c] + chunks) == RunChunks(More(st, c), chunks)
  {
    hide Drain, TryRead;
    DrainWaits(More(st, c));
    var r := RunChunks(More(st, c), chunks);
    assert ([c] + chunks)[1..] == chunks && [] + r.0 == r.0;
  }

  lemma PrefixWaits(s: Send, c: seq<byte>)
    requires c <= SendBytes(s) && |c| < |SendBytes(s)|
    ensures TryRead(c) == 0
  {
    hide TryRead, Header;
    PartialPacketWaits(SentFragment(s), SentCrc(s.data), c);
  }

  // A larger payload is too much: after a first chunk of one byte and a second of 20480 the packet is still not whole,
  // and a third full chunk no longer fits; it is dropped, and bytes of the packet with it.
  lemma BoundIsTight(ss: seq<Send>, c0: seq<byte>, c1: seq<byte>, c2: seq<byte>)
    requires ss != [] && PAYLOAD_MAX < |ss[0].data| < 0x1_0000
    requires c0 + c1 + c2 <= Stream(ss) && |c0| == 1 && |c1| == |c2| == CHUNK_MAX
    ensures RunChunks(State([], [], false), [c0, c1, c2]) == ([], State(c0 + c1, [], false))
  {
    hide SendBytes, TryRead, Drain, RunChunks;
    var s := ss[0];
    var empty, st1, st2 := State([], [], false), State(c0, [], false), State(c0 + c1, [], false);
    assert |SendBytes(s)| >= CHUNK_MAX + 2 by { SendLength(s); }
    StreamSplit(ss, |c0 + c1|);
    assert Stream(ss)[..|c0 + c1|] == c0 + c1;
    PrefixWaits(s, c0 + c1);
    assert c0 <= c0 + c1;
    PrefixWaits(s, c0);
    assert [] + c0 == c0;
    assert [c0, c1, c2] == [c0] + [c1, c2] && [c1, c2] == [c1] + [c2];
    WaitsWithOneMore(empty, c0, [c1, c2]);
    WaitsWithOneMore(st1, c1, [c2]);
    RunLast(st2, c2);
    DrainWaits(st2);
  }

  // For every payload from there up to 40921 bytes there is a stream of two commands, and a way to cut it, of which
  // nothing arrives.
  lemma LargerIsLost(s: Send) returns (ss: seq<Send>, chunks: seq<seq<byte>>)
    requires PAYLOAD_MAX < |s.data| <= 2 * CHUNK_MAX - 39
    ensures |ss| == 2 && ss[0] == s && Concat(chunks) == Stream(ss) && forall c | c in chunks :: |c| <= CHUNK_MAX
    ensures RunChunks(State([], [], false), chunks).0 == []
  {
    hide SendBytes, RunChunks;
    var t := s.(data := seq(2 * CHUNK_MAX - 39 - |s.data|, _ => 0));
    ss := [s, t];
    SendLength(s);
    SendLength(t);
    StreamOfTwo(s, t);
    var all := Stream(ss);
    var c0, c1, c2 := all[..1], all[1..1 + CHUNK_MAX], all[1 + CHUNK_MAX..];
    assert c0 + c1 + c2 == all;
    chunks := [c0, c1, c2];
    ConcatOfThree(c0, c1, c2);
    BoundIsTight(ss, c0, c1, c2);
  }

  lemma StreamOfTwo(s: Send, t: Send)
    ensures |Stream([s, t])| == |SendBytes(s)| + |SendBytes(t)|
  {
    hide SendBytes;
    assert [s, t][1..] == [t] && [t][1..] == [];
    assert Stream([t]) == SendBytes(t) + [];
  }

  lemma ConcatOfThree(a: seq<byte>, b: seq<byte>, c: seq<byte>)
    ensures Concat([a, b, c]) == a + b + c
  {
    assert [a, b, c][1..] == [b, c] && [b, c][1..] == [c] && [c][1..] == [];
    assert Concat([c]) == c && Concat([b, c]) == b + c;
  }

  lemma SendLength(s: Send)
    requires |s.data| < 0x1_0000
    ensures |SendBytes(s)| == HEAD_LEN + |s.data| + 4
  {
    hide Header, Put16, Put32, SentCrc;
  }

  // The same through the receiver's own code.
  method Session(ghost ss: seq<Send>, chunks: seq<seq<byte>>) returns (commands: seq<Command>)
    requires forall s | s in ss :: s.lastNo == 0 && |s.data| <= PAYLOAD_MAX
    requires Concat(chunks) == Stream(ss) && forall c | c in chunks :: |c| <= CHUNK_MAX
    ensures commands == AsCommands(ss)
  {
    SinglesArrive(ss, chunks);
    var receiver := new Receiver();
    commands := receiver.Run(chunks);
  }

  // ---------- a fragmented message, with single packets of other commands in between ----------

  // The sends of one command, and of the others.
  function OfCmd(ss: seq<Send>, cmd: u16): seq<Send> {
    if ss == [] then [] else (if Low16(ss[0].typeCmd) == cmd then [ss[0]] else []) + OfCmd(ss[1..], cmd)
  }

  function NotOfCmd(ss: seq<Send>, cmd: u16): seq<Send> {
    if ss == [] then [] else (if Low16(ss[0].typeCmd) != cmd then [ss[0]] else []) + NotOfCmd(ss[1..], cmd)
  }

  // Commands handed over for one command code, and for the others.
  function DeliveredTo(cs: seq<Command>, cmd: u16): seq<Command> {
    if cs == [] then [] else (if cs[0].cmd == cmd then [cs[0]] else []) + DeliveredTo(cs[1..], cmd)
  }

  function DeliveredElsewhere(cs: seq<Command>, cmd: u16): seq<Command> {
    if cs == [] then [] else (if cs[0].cmd != cmd then [cs[0]] else []) + DeliveredElsewhere(cs[1..], cmd)
  }

  function Datas(ss: seq<Send>): seq<byte> {
    if ss == [] then [] else ss[0].data + Datas(ss[1..])
  }

  // The one command a group of packets turns into: the last one names it, all carry it.
  function Whole(g: seq<Send>): seq<Command> {
    if g == [] then []
    else var l := g[|g| - 1];
      [Command(Low16(l.typeCmd), High16(l.typeCmd), l.ipnum, Datas(g))]
  }

  // What a stream may hold besides one code's sends: single packets of other codes.
  ghost predicate OthersSingle(ss: seq<Send>, cmd: u16) {
    forall s | s in ss :: |s.data| < 0x1_0000 && (Low16(s.typeCmd) != cmd ==> s.lastNo == 0)
  }

  // The sends of one code as they are put together: the first says how many make a command, whatever the others say,
  // and the next one after those begins the next.
  function Cut(ss: seq<Send>): seq<seq<Send>>
    decreases |ss|
  {
    if ss == [] || |ss| <= ss[0].lastNo then []
    else [ss[..ss[0].lastNo + 1]] + Cut(ss[ss[0].lastNo + 1..])
  }

  // What is left over at the end.
  function Rest(ss: seq<Send>): seq<Send>
    decreases |ss|
  {
    if ss == [] || |ss| <= ss[0].lastNo then ss else Rest(ss[ss[0].lastNo + 1..])
  }

  ghost predicate AllOf(ss: seq<Send>, cmd: u16) {
    forall s | s in ss :: |s.data| < 0x1_0000 && Low16(s.typeCmd) == cmd
  }

  // A command begun and not yet complete.
  ghost predicate Begun(begun: seq<Send>, cmd: u16) {
    AllOf(begun, cmd) && (begun != [] ==> |begun| <= begun[0].lastNo)
  }

  lemma CountsFirst(f: Fragment, rest: seq<Fragment>, cmd: u16)
    requires f.cmd == cmd
    ensures Count([f] + rest, cmd) == 1 + Count(rest, cmd) && Others([f] + rest, cmd) == Others(rest, cmd)
    ensures Gather([f] + rest, cmd) == f.payload + Gather(rest, cmd) && FirstLastNo([f] + rest, cmd) == f.lastNo
  {
    assert ([f] + rest)[1..] == rest;
  }

  lemma SentFirst(s: Send, rest: seq<Send>)
    ensures Sent([s] + rest) == [SentFragment(s)] + Sent(rest)
  {
    hide SentFragment;
  }

  lemma AllOfFirst(s: Send, rest: seq<Send>, cmd: u16)
    requires AllOf([s] + rest, cmd)
    ensures AllOf(rest, cmd) && |s.data| < 0x1_0000 && Low16(s.typeCmd) == cmd
  {
    assert ([s] + rest)[0] == s && forall r | r in rest :: r in [s] + rest;
  }

  lemma FragmentOf(s: Send)
    requires |s.data| < 0x1_0000
    ensures var f := SentFragment(s); f.cmd == Low16(s.typeCmd) && f.lastNo == s.lastNo && f.payload == s.data
  {
    assert s.data[..|s.data|] == s.data;
  }

  lemma DatasFirst(s: Send, rest: seq<Send>)
    ensures Datas([s] + rest) == s.data + Datas(rest)
  {
    assert ([s] + rest)[1..] == rest;
  }

  lemma NothingCounts(cmd: u16)
    ensures Count(Sent([]), cmd) == 0 && Others(Sent([]), cmd) == [] && Gather(Sent([]), cmd) == Datas([])
  {
  }

  lemma {:induction false} BegunCounts(ss: seq<Send>, cmd: u16)
    requires AllOf(ss, cmd)
    ensures Count(Sent(ss), cmd) == |ss| && Others(Sent(ss), cmd) == [] && Gather(Sent(ss), cmd) == Datas(ss)
    ensures ss != [] ==> FirstLastNo(Sent(ss), cmd) == ss[0].lastNo
  {
    hide *;
    if ss == [] {
      NothingCounts(cmd);
    } else {
      assert [ss[0]] + ss[1..] == ss;
      AllOfFirst(ss[0], ss[1..], cmd);
      FragmentOf(ss[0]);
      SentFirst(ss[0], ss[1..]);
      DatasFirst(ss[0], ss[1..]);
      CountsFirst(SentFragment(ss[0]), Sent(ss[1..]), cmd);
      BegunCounts(ss[1..], cmd);
    }
  }

  // A packet that does not complete its command only waits; the one that does delivers all of it and empties the list.
  lemma PieceSettles(begun: seq<Send>, s: Send)
    requires Begun(begun, Low16(s.typeCmd)) && |s.data| < 0x1_0000
    ensures var g := begun + [s];
            Answer(Sent(begun), s) ==
              if |begun| < g[0].lastNo then (None, Sent(g), false) else (Some(Whole(g)[0]), [], false)
  {
    hide Strip;
    var g, f := begun + [s], SentFragment(s);
    assert Sent(begun) + [f] == Sent(g);
    BegunCounts(g, f.cmd);
    assert !Sandwiched(Sent(g), f.cmd);
    StripIsExact(Sent(g), f.cmd);
  }

  lemma DeliveredFirst(c: Option<Command>, d: (seq<Command>, seq<Fragment>, bool), cmd: u16)
    ensures DeliveredTo(Lead(c, d).0, cmd)
         == (if c.Some? && c.value.cmd == cmd then [c.value] else []) + DeliveredTo(d.0, cmd)
    ensures DeliveredElsewhere(Lead(c, d).0, cmd)
         == (if c.Some? && c.value.cmd != cmd then [c.value] else []) + DeliveredElsewhere(d.0, cmd)
  {
    if c.Some? {
      assert ([c.value] + d.0)[1..] == d.0;
    } else {
      assert [] + DeliveredTo(d.0, cmd) == DeliveredTo(d.0, cmd);
      assert [] + DeliveredElsewhere(d.0, cmd) == DeliveredElsewhere(d.0, cmd);
    }
  }

  lemma OfCmdFirst(ss: seq<Send>, cmd: u16)
    requires ss != []
    ensures Low16(ss[0].typeCmd) == cmd ==>
              OfCmd(ss, cmd) == [ss[0]] + OfCmd(ss[1..], cmd) && NotOfCmd(ss, cmd) == NotOfCmd(ss[1..], cmd)
    ensures Low16(ss[0].typeCmd) != cmd ==>
              OfCmd(ss, cmd) == OfCmd(ss[1..], cmd) && NotOfCmd(ss, cmd) == [ss[0]] + NotOfCmd(ss[1..], cmd)
    ensures Low16(ss[0].typeCmd) != cmd ==>
              AsCommands(NotOfCmd(ss, cmd)) == [AsCommand(ss[0])] + AsCommands(NotOfCmd(ss[1..], cmd))
  {
  }

  function Wholes(gs: seq<seq<Send>>): seq<Command> {
    if gs == [] then [] else Whole(gs[0]) + Wholes(gs[1..])
  }

  // Of one code the commands put together so, of the others the single ones, and on the list what is left over.
  ghost predicate Delivers(r: (seq<Command>, seq<Fragment>, bool), own: seq<Send>, others: seq<Send>, cmd: u16) {
    && r.1 == Sent(Rest(own)) && !r.2
    && DeliveredTo(r.0, cmd) == Wholes(Cut(own))
    && DeliveredElsewhere(r.0, cmd) == AsCommands(others)
  }

  lemma CutWaits(begun: seq<Send>, cmd: u16)
    requires Begun(begun, cmd)
    ensures Cut(begun) == [] && Rest(begun) == begun
  {
  }

  lemma CutFirst(g: seq<Send>, rest: seq<Send>)
    requires g != [] && |g| == g[0].lastNo + 1
    ensures Cut(g + rest) == [g] + Cut(rest) && Rest(g + rest) == Rest(rest)
    ensures Wholes(Cut(g + rest)) == [Whole(g)[0]] + Wholes(Cut(rest))
  {
    assert (g + rest)[..|g|] == g && (g + rest)[|g|..] == rest;
    assert ([g] + Cut(rest))[1..] == Cut(rest);
    hide Datas;
  }

  lemma {:induction false} GroupsFrom(begun: seq<Send>, ss: seq<Send>, cmd: u16)
    requires OthersSingle(ss, cmd) && Begun(begun, cmd)
    ensures Delivers(Feed(Sent(begun), Sent(ss)), begun + OfCmd(ss, cmd), NotOfCmd(ss, cmd), cmd)
    decreases |ss|
  {
    hide Settle, SendBytes, Accepted, Cut, Rest, Whole, Wholes;
    if ss == [] {
      assert begun + [] == begun && Sent([]) == [];
      CutWaits(begun, cmd);
      NoWholes();
    } else {
      GroupStep(begun, ss, cmd);
      var s, rest := ss[0], ss[1..];
      if Low16(s.typeCmd) != cmd {
        GroupsFrom(begun, rest, cmd);
      } else {
        var g := begun + [s];
        assert begun + OfCmd(ss, cmd) == g + OfCmd(rest, cmd);
        if |begun| < g[0].lastNo {
          GroupsFrom(g, rest, cmd);
        } else {
          GroupsFrom([], rest, cmd);
          CutFirst(g, OfCmd(rest, cmd));
          assert [] + OfCmd(rest, cmd) == OfCmd(rest, cmd);
        }
      }
    }
  }

  lemma NoWholes()
    ensures Wholes([]) == []
  {
  }

  // What feeding the first send does, and what comes after it.
  lemma GroupStep(begun: seq<Send>, ss: seq<Send>, cmd: u16)
    requires ss != [] && OthersSingle(ss, cmd) && Begun(begun, cmd)
    ensures var s, g := ss[0], begun + [ss[0]];
            var r := Feed(Sent(begun), Sent(ss));
            && OthersSingle(ss[1..], cmd)
            && if Low16(s.typeCmd) != cmd then
                 var d := Feed(Sent(begun), Sent(ss[1..]));
                 && r.1 == d.1 && r.2 == d.2 && DeliveredTo(r.0, cmd) == DeliveredTo(d.0, cmd)
                 && DeliveredElsewhere(r.0, cmd) == [AsCommand(s)] + DeliveredElsewhere(d.0, cmd)
                 && OfCmd(ss, cmd) == OfCmd(ss[1..], cmd)
                 && AsCommands(NotOfCmd(ss, cmd)) == [AsCommand(s)] + AsCommands(NotOfCmd(ss[1..], cmd))
               else if |begun| < g[0].lastNo then
                 && Begun(g, cmd) && r == Feed(Sent(g), Sent(ss[1..]))
                 && OfCmd(ss, cmd) == [s] + OfCmd(ss[1..], cmd) && NotOfCmd(ss, cmd) == NotOfCmd(ss[1..], cmd)
               else
                 var d := Feed([], Sent(ss[1..]));
                 && |g| == g[0].lastNo + 1 && Sent([]) == []
                 && r.1 == d.1 && r.2 == d.2 && DeliveredTo(r.0, cmd) == [Whole(g)[0]] + DeliveredTo(d.0, cmd)
                 && DeliveredElsewhere(r.0, cmd) == DeliveredElsewhere(d.0, cmd)
                 && OfCmd(ss, cmd) == [s] + OfCmd(ss[1..], cmd) && NotOfCmd(ss, cmd) == NotOfCmd(ss[1..], cmd)
  {
    hide Settle, SendBytes, Accepted, Feed;
    var s, g, rest := ss[0], begun + [ss[0]], ss[1..];
    assert s in ss;
    FeedFirst(Sent(begun), ss);
    OfCmdFirst(ss, cmd);
    var a := Answer(Sent(begun), s);
    DeliveredFirst(a.0, Feed(a.1, Sent(rest)), cmd);
    if Low16(s.typeCmd) != cmd {
      SentIsAccepted(s);
      SingleSettles(Sent(begun), SentFragment(s));
    } else {
      PieceSettles(begun, s);
    }
  }

  // ---------- fragmenting a long message ----------

  lemma {:induction false} DatasIsGlue(ss: seq<Send>)
    ensures Datas(ss) == Glue(ss)
  {
    if ss != [] {
      DatasIsGlue(ss[..|ss| - 1]);
      DatasAppend(ss[..|ss| - 1], ss[|ss| - 1]);
      assert ss[..|ss| - 1] + [ss[|ss| - 1]] == ss;
    }
  }

  lemma {:induction false} DatasAppend(ss: seq<Send>, s: Send)
    ensures Datas(ss + [s]) == Datas(ss) + s.data
  {
    if ss == [] {
      assert ss + [s] == [s] && [s][1..] == [] && s.data + [] == s.data;
      assert Datas([s]) == s.data + Datas([]);
    } else {
      assert (ss + [s])[1..] == ss[1..] + [s];
      DatasAppend(ss[1..], s);
    }
  }

  lemma {:induction false} AllOfCmd(ss: seq<Send>, cmd: u16)
    requires forall s | s in ss :: Low16(s.typeCmd) == cmd
    ensures OfCmd(ss, cmd) == ss && NotOfCmd(ss, cmd) == []
  {
    if ss != [] {
      AllOfCmd(ss[1..], cmd);
    }
  }

  lemma PieceFields(data: seq<byte>, i: nat)
    requires i <= LastNo(data)
    ensures var s := Piece(data, i);
            && Low16(s.typeCmd) == CLIENT_MSG_REBACK && High16(s.typeCmd) == REBACK_MIPI_CODE && s.ipnum == 0
            && s.lastNo == LastNo(data) % 0x1_0000 && |s.data| <= PACKAGE_MAX_LEN
  {
    PieceFollows(data, i);
  }

  lemma PiecesOfCmd(data: seq<byte>, n: nat)
    requires n == LastNo(data) % 0x1_0000 + 1
    ensures OthersSingle(Pieces(data, n), CLIENT_MSG_REBACK)
    ensures OfCmd(Pieces(data, n), CLIENT_MSG_REBACK) == Pieces(data, n)
    ensures NotOfCmd(Pieces(data, n), CLIENT_MSG_REBACK) == []
    ensures |Pieces(data, n)| == n == Pieces(data, n)[0].lastNo + 1
  {
    hide Piece, OfCmd, NotOfCmd, Low16;
    var ss := Pieces(data, n);
    forall s | s in ss
      ensures Low16(s.typeCmd) == CLIENT_MSG_REBACK && s.lastNo == n - 1 && |s.data| < 0x1_0000
    {
      var i :| 0 <= i < n && ss[i] == s;
      PieceFields(data, i);
    }
    AllOfCmd(ss, CLIENT_MSG_REBACK);
  }

  lemma WholeOfPieces(data: seq<byte>, n: nat)
    requires 0 < n <= LastNo(data) + 1
    ensures Whole(Pieces(data, n)) == [Command(CLIENT_MSG_REBACK, REBACK_MIPI_CODE, 0, Glue(Pieces(data, n)))]
  {
    hide Piece, Glue, Datas, Low16, High16;
    var ss := Pieces(data, n);
    DatasIsGlue(ss);
    PieceFields(data, n - 1);
    assert ss[n - 1] == Piece(data, n - 1);
  }

  // The first n pieces, n being what their last-number field announces, come out as one command.
  lemma PiecesFeed(data: seq<byte>, n: nat)
    requires n == LastNo(data) % 0x1_0000 + 1
    ensures Feed([], Sent(Pieces(data, n)))
         == ([Command(CLIENT_MSG_REBACK, REBACK_MIPI_CODE, 0, Glue(Pieces(data, n)))], [], false)
  {
    hide Feed, Whole, Wholes, Pieces, OfCmd, NotOfCmd, OthersSingle, Cut, Rest;
    var ss := Pieces(data, n);
    PiecesOfCmd(data, n);
    GroupsFrom([], ss, CLIENT_MSG_REBACK);
    assert [] + ss == ss && ss + [] == ss && Sent([]) == [];
    CutFirst(ss, []);
    CutWaits([], CLIENT_MSG_REBACK);
    NoWholes();
    WholeOfPieces(data, n);
    assert Whole(ss) + [] == Whole(ss);
    assert AsCommands([]) == [];
    AllDelivered(Feed([], Sent(ss)).0, CLIENT_MSG_REBACK);
  }

  lemma {:induction false} AllDelivered(cs: seq<Command>, cmd: u16)
    requires DeliveredElsewhere(cs, cmd) == []
    ensures DeliveredTo(cs, cmd) == cs
  {
    if cs != [] {
      AllDelivered(cs[1..], cmd);
    }
  }

  lemma {:induction false} FeedAppend(pending: seq<Fragment>, fs: seq<Fragment>, gs: seq<Fragment>)
    requires !Feed(pending, fs).2
    ensures var a := Feed(pending, fs);
            var b := Feed(a.1, gs);
            Feed(pending, fs + gs) == (a.0 + b.0, b.1, b.2)
    decreases |fs|
  {
    hide Settle;
    var a := Feed(pending, fs);
    var b := Feed(a.1, gs);
    if fs == [] {
      assert fs + gs == gs && [] + b.0 == b.0;
    } else {
      assert (fs + gs)[1..] == fs[1..] + gs;
      var s := Settle(pending + [fs[0]], fs[0]);
      FeedAppend(s.1, fs[1..], gs);
      var out := if s.0.Some? then [s.0.value] else [];
      var c := Feed(s.1, fs[1..]);
      assert out + (c.0 + b.0) == out + c.0 + b.0;
    }
  }

  lemma PiecesPrefix(data: seq<byte>, n: nat)
    requires data != [] && n <= LastNo(data) + 1
    ensures Sent(Fragments(data)) == Sent(Pieces(data, n)) + Sent(Pieces(data, LastNo(data) + 1)[n..])
  {
    hide SentFragment, Piece;
    var all := Pieces(data, LastNo(data) + 1);
    assert all[..n] == Pieces(data, n);
    SentSplit(all, n);
  }

  lemma SentSplit(ss: seq<Send>, n: nat)
    requires n <= |ss|
    ensures Sent(ss) == Sent(ss[..n]) + Sent(ss[n..])
  {
    hide SentFragment;
    forall i | 0 <= i < |ss| ensures Sent(ss)[i] == (Sent(ss[..n]) + Sent(ss[n..]))[i] {
    }
  }

  lemma WrapsRound(data: seq<byte>, n: nat)
    requires |data| >= 0x1_0000 * PACKAGE_MAX_LEN && n == LastNo(data) % 0x1_0000 + 1
    ensures n <= LastNo(data) && n * PACKAGE_MAX_LEN < |data|
  {
  }

  lemma WrappedFragments(data: seq<byte>)
    requires |data| >= 0x1_0000 * PACKAGE_MAX_LEN
    ensures Feed([], Sent(Fragments(data))).0 != [] && |Feed([], Sent(Fragments(data))).0[0].payload| < |data|
  {
    hide Feed, Sent, Fragments, Pieces, Glue, Piece;
    var n := LastNo(data) % 0x1_0000 + 1;
    WrapsRound(data, n);
    PiecesFeed(data, n);
    PiecesCover(data, n);
    PiecesPrefix(data, n);
    FeedAppend([], Sent(Pieces(data, n)), Sent(Pieces(data, LastNo(data) + 1)[n..]));
  }

  // Fragmenting and reassembling is the identity exactly for messages of less than 104857600 bytes: from there on
  // the last-number field wraps round and the receiver takes the first pieces for the whole message.
  lemma FragmentationIsIdentity(data: seq<byte>)
    requires data != []
    ensures Feed([], Sent(Fragments(data))).0 == [Command(CLIENT_MSG_REBACK, REBACK_MIPI_CODE, 0, data)]
       <==> |data| < 0x1_0000 * PACKAGE_MAX_LEN
    ensures |data| < 0x1_0000 * PACKAGE_MAX_LEN ==>
              Feed([], Sent(Fragments(data))) == ([Command(CLIENT_MSG_REBACK, REBACK_MIPI_CODE, 0, data)], [], false)
  {
    hide Feed, Sent, Pieces, Glue, Piece;
    if |data| < 0x1_0000 * PACKAGE_MAX_LEN {
      assert LastNo(data) < 0x1_0000;
      PiecesFeed(data, LastNo(data) + 1);
      PiecesCover(data, LastNo(data) + 1);
    } else {
      WrappedFragments(data);
    }
  }

  // A fragmented message through the whole path, bytes and chunks included.
  lemma FragmentsArrive(data: seq<byte>, chunks: seq<seq<byte>>)
    requires data != [] && |data| < 0x1_0000 * PACKAGE_MAX_LEN
    requires Concat(chunks) == Stream(Fragments(data)) && forall c | c in chunks :: |c| <= CHUNK_MAX
    ensures RunChunks(State([], [], false), chunks)
         == ([Command(CLIENT_MSG_REBACK, REBACK_MIPI_CODE, 0, data)], State([], [], false))
  {
    hide RunChunks, Feed, Stream;
    FragmentationIsIdentity(data);
    PiecesCover(data, LastNo(data) + 1);
    assert Small(Fragments(data));
    ChunkingIsIrrelevant(Fragments(data), chunks);
  }

  // ---------- damaged packets ----------

  // A packet whose payload was altered within four consecutive bytes, and whose CRC field is not zero, is taken
  // off the bytes and changes nothing else: it is neither filed nor does it deliver anything.
  lemma AlteredNeverFiled(st: State, s: Send, got: seq<byte>, at: nat, n: nat, tail: seq<byte>)
    requires Healthy(st.pending) && !st.dangling
    requires Altered(SentFragment(s).payload, got, at, n) && SentCrc(s.data) != 0
    requires st.bytes == Packet(SentFragment(s).(payload := got), SentCrc(s.data)) + tail
    ensures TryRead(st.bytes) != 0
    ensures TakePacket(st) == (None, State(tail, st.pending, false))
  {
    var g := SentFragment(s).(payload := got);
    AlteredPayloadRefused(s, got, at, n);
    PacketCutOff(g, SentCrc(s.data), tail);
    PacketDecodes(g, SentCrc(s.data));
    SettleKeepsHealthy(st.pending, g, false);
  }

  // A payload of the caller's with four bytes of its own checksum behind it goes unchecked: altered, it is delivered
  // as what it has become.
  lemma UncheckedIsDelivered(s: Send, p: seq<byte>, got: seq<byte>, at: nat, n: nat, tail: seq<byte>)
    requires s.lastNo == 0 && |p| + 4 < 0x1_0000 && s.data == Unchecked(p)
              && Altered(SentFragment(s).payload, got, at, n)
    ensures var g := SentFragment(s).(payload := got);
            var st := State(Packet(g, SentCrc(s.data)) + tail, [], false);
            TryRead(st.bytes) != 0 && TakePacket(st) == (Some(AsCommand(s.(data := got))), State(tail, [], false))
  {
    hide Packet, Accepted, Unchecked, SentCrc, Header, Settle;
    var g := SentFragment(s).(payload := got);
    UncheckedIsAccepted(s, p, got, at, n);
    PacketCutOff(g, SentCrc(s.data), tail);
    PacketDecodes(g, SentCrc(s.data));
    SingleSettles([], g);
  }
}
