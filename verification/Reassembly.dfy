// What the pending list of packsocket/packsocket.c means, on sequences of fragments.
module Reassembly {
  import opened Wrappers
  import opened Wire

  datatype Command = Command(cmd: u16, kind: u16, ipnum: u32, payload: seq<byte>)

  function Count(s: seq<Fragment>, cmd: u16): nat {
    if s == [] then 0 else (if s[0].cmd == cmd then 1 else 0) + Count(s[1..], cmd)
  }

  // lastNo of the first pending fragment of a command, -1 if it has none.
  function FirstLastNo(s: seq<Fragment>, cmd: u16): int {
    if s == [] then -1 else if s[0].cmd == cmd then s[0].lastNo else FirstLastNo(s[1..], cmd)
  }

  predicate Complete(s: seq<Fragment>, cmd: u16) {
    FirstLastNo(s, cmd) >= 0 && Count(s, cmd) >= FirstLastNo(s, cmd) + 1
  }

  function Gather(s: seq<Fragment>, cmd: u16): seq<byte> {
    if s == [] then [] else (if s[0].cmd == cmd then s[0].payload else []) + Gather(s[1..], cmd)
  }

  lemma GatherFrom(s: seq<Fragment>, i: nat, cmd: u16, before: seq<byte>)
    requires i < |s|
    ensures before + Gather(s[i..], cmd)
         == (if |s[i].payload| > 0 && s[i].cmd == cmd then before + s[i].payload else before) + Gather(s[i + 1..], cmd)
  {
    assert s[i..][1..] == s[i + 1..];
  }

  function Others(s: seq<Fragment>, cmd: u16): seq<Fragment> {
    if s == [] then [] else (if s[0].cmd != cmd then [s[0]] else []) + Others(s[1..], cmd)
  }

  // ---------- what relinking leaves on the list ----------

  function DropBack(s: seq<Fragment>, cmd: u16): seq<Fragment> {
    if s != [] && s[|s| - 1].cmd == cmd then DropBack(s[..|s| - 1], cmd) else s
  }

  // Relinking lets go of the matching fragments at the front and at the back, not of those in between.
  function Strip(s: seq<Fragment>, cmd: u16): seq<Fragment> {
    if s != [] && s[0].cmd == cmd then Strip(s[1..], cmd) else DropBack(s, cmd)
  }

  lemma {:induction false} DropBackIsPrefix(s: seq<Fragment>, cmd: u16, last: int)
    requires -1 <= last < |s|
    requires last == -1 || s[last].cmd != cmd
    requires forall a | last < a < |s| :: s[a].cmd == cmd
    ensures DropBack(s, cmd) == s[..last + 1]
  {
    if last + 1 < |s| {
      DropBackIsPrefix(s[..|s| - 1], cmd, last);
      assert s[..|s| - 1][..last + 1] == s[..last + 1];
    } else {
      assert s[..last + 1] == s;
    }
  }

  lemma {:induction false} StripIsMiddle(s: seq<Fragment>, cmd: u16, first: nat, last: int)
    requires -1 <= last < |s| && first <= |s|
    requires forall a | 0 <= a < first :: s[a].cmd == cmd
    requires forall a | last < a < |s| :: s[a].cmd == cmd
    requires if last == -1 then first == |s| else first <= last && s[first].cmd != cmd && s[last].cmd != cmd
    ensures Strip(s, cmd) == if last == -1 then [] else s[first..last + 1]
  {
    if first == 0 {
      DropBackIsPrefix(s, cmd, last);
    } else {
      hide DropBack;
      var t := s[1..];
      assert s[0].cmd == cmd;
      if last == -1 {
        StripIsMiddle(t, cmd, first - 1, -1);
      } else {
        assert t[first - 1] == s[first] && t[last - 1] == s[last];
        StripIsMiddle(t, cmd, first - 1, last - 1);
        assert t[first - 1..last] == s[first..last + 1];
      }
    }
  }

  // A matching fragment stands between two that do not match.
  predicate Sandwiched(s: seq<Fragment>, cmd: u16) {
    exists i, j, k | 0 <= i < j < k < |s| :: s[i].cmd != cmd && s[j].cmd == cmd && s[k].cmd != cmd
  }

  // ---------- one packet, one parse, the whole drain ----------

  function File(pending: seq<Fragment>, f: Fragment, accepted: bool): seq<Fragment> {
    if accepted then pending + [f] else pending
  }

  // What happens once a packet is filed: deliver its command if that is complete now.  The last component
  // tells that the list was left pointing at a freed node; nothing is defined after that.
  function Settle(p: seq<Fragment>, f: Fragment): (Option<Command>, seq<Fragment>, bool) {
    if Complete(p, f.cmd)
    then (Some(Command(f.cmd, f.kind, f.ipnum, Gather(p, f.cmd))), Strip(p, f.cmd), Sandwiched(p, f.cmd))
    else (None, p, false)
  }

  datatype State = State(bytes: seq<byte>, pending: seq<Fragment>, dangling: bool)

  // The packet at the front of the bytes, and whether its CRC lets it in.
  function Front(s: seq<byte>): (Fragment, bool)
    requires TryRead(s) != 0
  {
    (Decode(s[..TryRead(s)]), Accepted(s[..TryRead(s)]))
  }

  // One packet taken from the front of the bytes.
  function TakePacket(st: State): (r: (Option<Command>, State))
    requires TryRead(st.bytes) != 0
    ensures |r.1.bytes| < |st.bytes| && (r.0.None? ==> !r.1.dangling)
  {
    var f := Front(st.bytes);
    var s := Settle(File(st.pending, f.0, f.1), f.0);
    (s.0, State(st.bytes[TryRead(st.bytes)..], s.1, s.2))
  }

  // parseSocketCmd: take packets until one completes a command or no whole packet is left.
  function Parse(st: State): (r: (Option<Command>, State))
    ensures |r.1.bytes| <= |st.bytes| && (r.0.Some? ==> |r.1.bytes| < |st.bytes|)
    ensures r.0.None? ==> TryRead(r.1.bytes) == 0
    decreases |st.bytes|
  {
    if TryRead(st.bytes) == 0 then (None, st)
    else
      var r := TakePacket(st);
      if r.0.Some? then r else Parse(r.1)
  }

  // Parsing until NULL comes back.
  function Drain(st: State): (r: (seq<Command>, State))
    decreases |st.bytes|
  {
    if st.dangling then ([], st)
    else
      var r := Parse(st);
      if r.0.None? then ([], r.1)
      else var d := Drain(r.1); ([r.0.value] + d.0, d.1)
  }

  lemma DrainUnfolds(st: State, p: (Option<Command>, State))
    requires !st.dangling && p == Parse(st)
    ensures Drain(st) == if p.0.None? then ([], p.1) else ([p.0.value] + Drain(p.1).0, Drain(p.1).1)
  {
  }

  lemma DrainOfDangling(st: State)
    requires st.dangling
    ensures Drain(st) == ([], st)
  {
  }

  // ---------- removal is exact unless a fragment is sandwiched ----------

  lemma {:induction false} OthersAppend(s: seq<Fragment>, t: seq<Fragment>, cmd: u16)
    ensures Others(s + t, cmd) == Others(s, cmd) + Others(t, cmd)
  {
    if s == [] {
      assert s + t == t;
    } else {
      assert (s + t)[1..] == s[1..] + t;
      OthersAppend(s[1..], t, cmd);
    }
  }

  lemma {:induction false} OthersOfMatching(s: seq<Fragment>, cmd: u16)
    requires forall f | f in s :: f.cmd == cmd
    ensures Others(s, cmd) == []
  {
    if s != [] {
      OthersOfMatching(s[1..], cmd);
    }
  }

  lemma {:induction false} OthersOfOthers(s: seq<Fragment>, cmd: u16)
    requires forall f | f in s :: f.cmd != cmd
    ensures Others(s, cmd) == s
  {
    if s != [] {
      OthersOfOthers(s[1..], cmd);
    }
  }

  lemma {:induction false} OthersDoNotMatch(s: seq<Fragment>, cmd: u16)
    ensures forall f | f in Others(s, cmd) :: f.cmd != cmd && f in s
  {
    if s != [] {
      OthersDoNotMatch(s[1..], cmd);
    }
  }

  // Where the survivors of a removal begin and end.
  lemma {:induction false} Ends(s: seq<Fragment>, cmd: u16) returns (first: nat, last: int)
    ensures -1 <= last < |s| && first <= |s|
    ensures forall a | 0 <= a < first :: s[a].cmd == cmd
    ensures forall a | last < a < |s| :: s[a].cmd == cmd
    ensures if last == -1 then first == |s| else first <= last && s[first].cmd != cmd && s[last].cmd != cmd
  {
    if s == [] {
      first, last := 0, -1;
    } else {
      first, last := Ends(s[1..], cmd);
      if s[0].cmd != cmd {
        first, last := 0, last + 1;
      } else {
        first, last := first + 1, if last == -1 then -1 else last + 1;
      }
    }
  }

  lemma OthersOfMiddle(s: seq<Fragment>, cmd: u16, first: nat, last: int)
    requires 0 <= first <= last < |s|
    requires forall a | 0 <= a < first :: s[a].cmd == cmd
    requires forall a | last < a < |s| :: s[a].cmd == cmd
    ensures Others(s, cmd) == Others(s[first..last + 1], cmd)
  {
    var a, m, z := s[..first], s[first..last + 1], s[last + 1..];
    assert s == a + (m + z);
    OthersAppend(a, m + z, cmd);
    OthersAppend(m, z, cmd);
    OthersOfMatching(a, cmd);
    OthersOfMatching(z, cmd);
  }

  lemma SandwichedMeansInside(s: seq<Fragment>, cmd: u16, first: nat, last: int)
    requires 0 <= first <= last < |s| && s[first].cmd != cmd && s[last].cmd != cmd
    requires forall a | 0 <= a < first :: s[a].cmd == cmd
    requires forall a | last < a < |s| :: s[a].cmd == cmd
    ensures Sandwiched(s, cmd) <==> exists j | first <= j <= last :: s[j].cmd == cmd
  {
  }

  lemma MiddleKept(s: seq<Fragment>, cmd: u16, first: nat, last: int)
    requires 0 <= first <= last < |s|
    ensures s[first..last + 1] == Others(s[first..last + 1], cmd) <==> !exists j | first <= j <= last :: s[j].cmd == cmd
  {
    var m := s[first..last + 1];
    OthersDoNotMatch(m, cmd);
    if j :| first <= j <= last && s[j].cmd == cmd {
      assert m[j - first] in m;
    } else {
      forall f | f in m ensures f.cmd != cmd {
        var k :| 0 <= k < |m| && m[k] == f;
        assert s[first + k] == f;
      }
      OthersOfOthers(m, cmd);
    }
  }

  // Relinking removes exactly the command's fragments, and keeps all others in order, just when no matching
  // fragment stands between two that do not match.
  lemma StripIsExact(s: seq<Fragment>, cmd: u16)
    ensures Strip(s, cmd) == Others(s, cmd) <==> !Sandwiched(s, cmd)
  {
    var first, last := Ends(s, cmd);
    StripIsMiddle(s, cmd, first, last);
    if last == -1 {
      OthersOfMatching(s, cmd);
    } else {
      OthersOfMiddle(s, cmd, first, last);
      SandwichedMeansInside(s, cmd, first, last);
      MiddleKept(s, cmd, first, last);
    }
  }

  // A sandwiched fragment is left behind.
  lemma MatchLeft(s: seq<Fragment>, cmd: u16) returns (k: nat)
    requires Sandwiched(s, cmd)
    ensures k < |Strip(s, cmd)| && Strip(s, cmd)[k].cmd == cmd
  {
    hide Strip, DropBack;
    var first, last := Ends(s, cmd);
    StripIsMiddle(s, cmd, first, last);
    SandwichedMeansInside(s, cmd, first, last);
    var j :| first <= j <= last && s[j].cmd == cmd;
    k := j - first;
  }

  // ---------- what stays on the list ----------

  // No command with fragments on the list has all of them there: at most lastNo of its first one.
  ghost predicate Healthy(p: seq<Fragment>) {
    forall cmd: u16 :: !Complete(p, cmd)
  }

  lemma {:induction false} FiledCounts(p: seq<Fragment>, f: Fragment, cmd: u16)
    ensures Count(p + [f], cmd) == Count(p, cmd) + if f.cmd == cmd then 1 else 0
    ensures FirstLastNo(p + [f], cmd)
         == if FirstLastNo(p, cmd) != -1 then FirstLastNo(p, cmd) else if f.cmd == cmd then f.lastNo else -1
    ensures FirstLastNo(p, cmd) == -1 <==> Count(p, cmd) == 0
  {
    if p == [] {
      assert p + [f] == [f];
    } else {
      assert (p + [f])[1..] == p[1..] + [f];
      FiledCounts(p[1..], f, cmd);
    }
  }

  lemma {:induction false} OthersCounts(p: seq<Fragment>, gone: u16, cmd: u16)
    ensures Count(Others(p, gone), cmd) == if cmd == gone then 0 else Count(p, cmd)
    ensures FirstLastNo(Others(p, gone), cmd) == if cmd == gone then -1 else FirstLastNo(p, cmd)
  {
    if p != [] {
      OthersCounts(p[1..], gone, cmd);
      if p[0].cmd != gone {
        assert Others(p, gone)[0] == p[0] && Others(p, gone)[1..] == Others(p[1..], gone);
      } else {
        assert Others(p, gone) == Others(p[1..], gone);
      }
    }
  }

  // What is pending after any packet stays short of complete for every command; a delivery uses exactly
  // lastNo + 1 fragments, the ones of its command, and leaves those of all other commands in order;
  // a refused packet changes nothing.
  lemma SettleKeepsHealthy(pending: seq<Fragment>, f: Fragment, accepted: bool)
    requires Healthy(pending)
    ensures var p := File(pending, f, accepted);
            var r := Settle(p, f);
            && (!r.2 ==> Healthy(r.1))
            && (!accepted ==> r == (None, pending, false))
            && (r.0.Some? ==> Count(p, f.cmd) == FirstLastNo(p, f.cmd) + 1)
            && (r.0.Some? && !r.2 ==> r.1 == Others(p, f.cmd))
            && (r.2 <==> r.0.Some? && Sandwiched(p, f.cmd))
  {
    var p := File(pending, f, accepted);
    var r := Settle(p, f);
    assert !Complete(pending, f.cmd);
    FiledCounts(pending, f, f.cmd);
    StripIsExact(p, f.cmd);
    if !r.2 {
      forall cmd: u16 ensures !Complete(r.1, cmd) {
        assert !Complete(pending, cmd);
        FiledCounts(pending, f, cmd);
        OthersCounts(p, f.cmd, cmd);
      }
    }
  }

  // Two fragmented messages in progress at once can go wrong: the second fragment of A arrives while B, which was
  // first, still waits for its third.  A is delivered, but B's second fragment stays behind a freed node.
  lemma InterleavedMessagesDangle(a1: Fragment, a2: Fragment, b1: Fragment, b2: Fragment)
    requires a1.cmd == a2.cmd != b1.cmd == b2.cmd && a1.lastNo == a2.lastNo == 1 && b1.lastNo == b2.lastNo == 2
    ensures Settle([b1], b1) == (None, [b1], false)
    ensures Settle([b1] + [a1], a1) == (None, [b1, a1], false)
    ensures Settle([b1, a1] + [b2], b2) == (None, [b1, a1, b2], false)
    ensures Settle([b1, a1, b2] + [a2], a2).0.Some? && Settle([b1, a1, b2] + [a2], a2).2
    ensures Settle([b1, a1, b2] + [a2], a2).1 == [b1, a1, b2]
  {
    var s := [b1, a1, b2] + [a2];
    assert [b1] + [a1] == [b1, a1] && [b1, a1] + [b2] == [b1, a1, b2];
    FiledCounts([b1], a1, a1.cmd);
    FiledCounts([b1, a1], b2, b2.cmd);
    FiledCounts([b1], a1, b2.cmd);
    FiledCounts([b1, a1, b2], a2, a2.cmd);
    FiledCounts([b1, a1], b2, a2.cmd);
    assert s[0].cmd != a2.cmd && s[1].cmd == a2.cmd && s[2].cmd != a2.cmd;
    StripIsMiddle(s, a2.cmd, 0, 2);
  }
}
