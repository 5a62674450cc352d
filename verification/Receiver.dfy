// The receiving side: bytes into the FIFO, packets out of it, commands off the pending list, and the loop
// of client.c that drives them.
module Receivers {
  import opened Wrappers
  import opened Crc
  import opened Wire
  import opened Reassembly
  import opened CmdFifos
  import opened PendingLists

  // recv() handed over one chunk: it enters the FIFO whole or is dropped.
  function Accept(st: State, chunk: seq<byte>): State {
    if |st.bytes| + |chunk| <= FIFO_MAX_LEN then st.(bytes := st.bytes + chunk) else st
  }

  // The receive loop over the chunks of one connection; nothing is defined once the list dangles.
  function RunChunks(st: State, chunks: seq<seq<byte>>): (seq<Command>, State)
    decreases |chunks|
  {
    if chunks == [] || st.dangling then ([], st)
    else
      var d := Drain(Accept(st, chunks[0]));
      var r := RunChunks(d.1, chunks[1..]);
      (d.0 + r.0, r.1)
  }

  // A drain half done: `acc` delivered, `r` the parser's last answer, `st` what it left.
  ghost predicate Draining(goal: (seq<Command>, State), acc: seq<Command>, r: Option<Command>, st: State) {
    match r
    case None => goal == (acc, st)
    case Some(c) => goal == (acc + [c] + Drain(st).0, Drain(st).1)
  }

  lemma DrainStarts(goal: (seq<Command>, State), p: (Option<Command>, State))
    requires goal == if p.0.None? then ([], p.1) else ([p.0.value] + Drain(p.1).0, Drain(p.1).1)
    ensures Draining(goal, [], p.0, p.1)
  {
    if p.0.Some? {
      assert [] + [p.0.value] + Drain(p.1).0 == [p.0.value] + Drain(p.1).0;
    }
  }

  lemma DrainGoesOn(goal: (seq<Command>, State), acc: seq<Command>, c: Command, st: State, p: (Option<Command>, State))
    requires Draining(goal, acc, Some(c), st) && !goal.1.dangling
    requires !st.dangling ==> p == Parse(st)
    ensures !st.dangling
    ensures Draining(goal, acc + [c], p.0, p.1)
  {
    if st.dangling {
      DrainOfDangling(st);
    }
    DrainUnfolds(st, p);
    if p.0.Some? {
      assert acc + [c] + ([p.0.value] + Drain(p.1).0) == acc + [c] + [p.0.value] + Drain(p.1).0;
    } else {
      assert acc + [c] + [] == acc + [c];
    }
  }

  // A run half done, with the chunks still to come.
  ghost predicate Running(goal: (seq<Command>, State), acc: seq<Command>, st: State, chunks: seq<seq<byte>>) {
    goal == (acc + RunChunks(st, chunks).0, RunChunks(st, chunks).1)
  }

  lemma RunStarts(goal: (seq<Command>, State), st: State, chunks: seq<seq<byte>>)
    requires goal == RunChunks(st, chunks)
    ensures Running(goal, [], st, chunks)
  {
    assert [] + RunChunks(st, chunks).0 == RunChunks(st, chunks).0;
  }

  lemma RunEnds(goal: (seq<Command>, State), acc: seq<Command>, st: State)
    requires Running(goal, acc, st, [])
    ensures goal == (acc, st)
  {
    assert acc + [] == acc;
  }

  lemma RunGoesOn(goal: (seq<Command>, State), acc: seq<Command>, st: State, chunks: seq<seq<byte>>)
    requires Running(goal, acc, st, chunks) && !goal.1.dangling
    ensures !st.dangling
    ensures chunks != [] ==>
      var d := Drain(Accept(st, chunks[0]));
      !d.1.dangling && Running(goal, acc + d.0, d.1, chunks[1..])
  {
    if chunks != [] && !st.dangling {
      var d := Drain(Accept(st, chunks[0]));
      var r := RunChunks(d.1, chunks[1..]);
      assert acc + (d.0 + r.0) == acc + d.0 + r.0;
    }
  }

  class Receiver {
    const fifo: CmdFifo
    const list: PendingList

    ghost predicate Valid()
      reads this, fifo, list, list.repr
    {
      fifo.Valid() && fifo.cmd.Length == FIFO_MAX_LEN && list.Sound()
    }

    ghost function View(): State
      requires Valid()
      reads this, fifo, fifo.cmd, list, list.repr
    {
      State(fifo.Contents(), list.Pending(), list.dangling)
    }

    constructor ()
      ensures Valid() && fresh(fifo) && fresh(fifo.cmd) && fresh(list)
      ensures View() == State([], [], false)
      ensures list.repr == {}
    {
      fifo := new CmdFifo(FIFO_MAX_LEN);
      list := new PendingList();
      new;
      assert list.Pending() == [];
    }

    // Take the fields out of a packet's bytes.
    static method Unpack(buffer: seq<byte>) returns (f: Fragment, accepted: bool)
      requires |buffer| >= 20 && |buffer| == HEAD_LEN + Get16(buffer[14], buffer[15]) + 4
      ensures f == Decode(buffer) && accepted == Accepted(buffer)
    {
      hide Checksum, Get16, Get32;
      var cmd := Get16(buffer[2], buffer[3]);
      var ipnum := Get32(buffer[4], buffer[5], buffer[6], buffer[7]);
      var curNo := Get16(buffer[8], buffer[9]);
      var lastNo := Get16(buffer[10], buffer[11]);
      var kind := Get16(buffer[12], buffer[13]);
      var validLen := Get16(buffer[14], buffer[15]);
      var crc := Get32(buffer[validLen + 16], buffer[validLen + 17], buffer[validLen + 18], buffer[validLen + 19]);
      accepted := CrcMatches(crc, buffer[16..16 + validLen]);
      f := Fragment(cmd, kind, ipnum, curNo, lastNo, buffer[16..16 + validLen]);
    }

    static method CrcMatches(crc: u32, payload: seq<byte>) returns (ok: bool)
      ensures ok <==> crc == 0 || crc == Checksum(payload)
    {
      var computed := Crc32Le(CRCPOLY_LE, payload);
      ok := crc == 0 || crc == computed as int;
    }

    // Take the packet at the front out of the FIFO.
    method Fetch(readLen: nat) returns (f: Fragment, accepted: bool)
      requires fifo.Valid() && readLen == TryRead(fifo.Contents()) != 0
      modifies fifo
      ensures fifo.Valid()
      ensures (f, accepted) == Front(old(fifo.Contents())) && fifo.Contents() == old(fifo.Contents())[readLen..]
    {
      var buffer := fifo.Read(readLen);
      f, accepted := Unpack(buffer);
    }

    // One turn of the parser's loop, on a packet that is whole.
    method TakeOne(readLen: nat) returns (r: Option<Command>)
      requires Valid() && !list.dangling && readLen == TryRead(fifo.Contents()) != 0
      modifies fifo, list, list.repr
      ensures Valid() && fresh(list.repr - old(list.repr))
      ensures (r, View()) == TakePacket(old(View()))
    {
      hide Front, Settle, File, TryRead;
      var f, accepted := Fetch(readLen);
      ghost var rest := fifo.Contents();
      assert list.Sound() && list.repr == old(list.repr) && list.Pending() == old(list.Pending());
      r := list.Take(f, accepted);
      assert fifo.Contents() == rest;
    }

    // The body of the parser's loop.
    method Turn() returns (more: bool, r: Option<Command>)
      requires Valid() && !list.dangling
      modifies fifo, list, list.repr
      ensures Valid() && fresh(list.repr - old(list.repr))
      ensures !more || r.Some? ==> (r, View()) == Parse(old(View()))
      ensures more && r.None? ==> !list.dangling && Parse(View()) == Parse(old(View())) && fifo.len < old(fifo.len)
    {
      hide TakePacket, TryRead;
      var readLen := fifo.TryReadLen();
      if readLen == 0 {
        return false, None;
      }
      more := true;
      r := TakeOne(readLen);
    }

    method ParseSocketCmd() returns (r: Option<Command>)
      requires Valid() && !list.dangling
      modifies fifo, list, list.repr
      ensures Valid() && fresh(list.repr - old(list.repr))
      ensures (r, View()) == Parse(old(View()))
    {
      var more := true;
      r := None;
      while more && r == None
        invariant Valid() && fresh(list.repr - old(list.repr))
        invariant more && r == None ==> !list.dangling && Parse(View()) == Parse(old(View()))
        invariant !more || r != None ==> (r, View()) == Parse(old(View()))
        decreases more && r == None, fifo.len
      {
        more, r := Turn();
      }
    }

    // recvSocketCmd: a chunk that does not fit is dropped whole.
    method RecvSocketCmd(chunk: seq<byte>)
      requires Valid()
      modifies fifo, fifo.cmd
      ensures Valid() && View() == Accept(old(View()), chunk)
    {
      var ok := fifo.Write(chunk);
    }

    // Parse until NULL; the commands are what msgProc is handed, in order.
    method DrainAll() returns (commands: seq<Command>)
      requires Valid() && !list.dangling && !Drain(View()).1.dangling
      modifies fifo, list, list.repr
      ensures Valid() && fresh(list.repr - old(list.repr))
      ensures (commands, View()) == Drain(old(View()))
    {
      ghost var goal := Drain(View());
      commands := [];
      ghost var st := View();
      var r := ParseSocketCmd();
      DrainUnfolds(st, (r, View()));
      DrainStarts(goal, (r, View()));
      while r.Some?
        invariant Valid() && fresh(list.repr - old(list.repr))
        invariant Draining(goal, commands, r, View())
        decreases r.Some?, fifo.len
      {
        st := View();
        DrainGoesOn(goal, commands, r.value, st, Parse(st));
        commands := commands + [r.value];
        r := ParseSocketCmd();
      }
    }

    // server_start, on one connection.
    method Run(chunks: seq<seq<byte>>) returns (commands: seq<Command>)
      requires Valid() && !RunChunks(View(), chunks).1.dangling
      modifies fifo, fifo.cmd, list, list.repr
      ensures Valid() && fresh(list.repr - old(list.repr))
      ensures (commands, View()) == RunChunks(old(View()), chunks)
    {
      ghost var goal := RunChunks(View(), chunks);
      commands := [];
      RunStarts(goal, View(), chunks);
      assert chunks[0..] == chunks;
      for i := 0 to |chunks|
        invariant Valid() && fresh(list.repr - old(list.repr))
        invariant Running(goal, commands, View(), chunks[i..])
      {
        RunGoesOn(goal, commands, View(), chunks[i..]);
        RecvSocketCmd(chunks[i]);
        var more := DrainAll();
        commands := commands + more;
        assert chunks[i..][1..] == chunks[i + 1..];
      }
      assert chunks[|chunks|..] == [];
      RunEnds(goal, commands, View());
    }
  }
}
