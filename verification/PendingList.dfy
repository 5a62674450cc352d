// The linked list of received fragments, with free() made visible.
module PendingLists {
  import opened Wrappers
  import opened Wire
  import opened Reassembly

  class Node {
    const info: Fragment
    var next: Node?
    var freed: bool
    ghost var rank: int   // counts up by one along the chain

    constructor (info: Fragment)
      ensures this.info == info && next == null && !freed
    {
      this.info := info;
      next := null;
      freed := false;
    }
  }

  // The fragments of a row of nodes.
  ghost function Infos(nodes: seq<Node>): (s: seq<Fragment>)
    ensures |s| == |nodes| && forall i | 0 <= i < |nodes| :: s[i] == nodes[i].info
  {
    seq(|nodes|, i requires 0 <= i < |nodes| => nodes[i].info)
  }

  ghost function At(nodes: seq<Node>, i: int): Node? {
    if 0 <= i < |nodes| then nodes[i] else null
  }

  // A chain of next pointers from `head` runs through exactly these nodes.
  ghost predicate Chain(head: Node?, nodes: seq<Node>, repr: set<Node>)
    reads repr
  {
    && (forall i | 0 <= i < |nodes| :: nodes[i] in repr)
    && head == At(nodes, 0)
    && (forall i {:trigger nodes[i].next} | 0 <= i < |nodes| :: nodes[i].next == At(nodes, i + 1))
    && (forall i | 0 <= i < |nodes| :: nodes[i].rank == nodes[0].rank + i)
  }

  class PendingList {
    var head: Node?
    ghost var nodes: seq<Node>
    ghost var repr: set<Node>
    ghost var dangling: bool   // a freed node is still on the chain

    // What every caller may rely on.
    ghost predicate Sound()
      reads this, repr
    {
      !dangling ==> Valid()
    }

    ghost predicate Linked()
      reads this, repr
    {
      Chain(head, nodes, repr)
    }

    // Every node on the chain is live.
    ghost predicate Valid()
      reads this, repr
    {
      Linked() && forall i | 0 <= i < |nodes| :: !nodes[i].freed
    }

    ghost function Pending(): seq<Fragment>
      reads this
    {
      Infos(nodes)
    }

    constructor ()
      ensures Valid() && nodes == [] && repr == {} && !dangling
    {
      head := null;
      nodes := [];
      repr := {};
      dangling := false;
    }

    // _addRecvList: walk to the end, hang the node there.
    method Add(node: Node)
      requires Valid() && node !in repr && node.next == null && !node.freed
      modifies this, repr, node`rank
      ensures Valid() && nodes == old(nodes) + [node] && repr == old(repr) + {node}
      ensures Pending() == old(Pending()) + [node.info]
    {
      if head == null {
        head := node;
      } else {
        var temp: Node? := head;
        var prev: Node := temp;
        ghost var i := 0;
        while temp != null
          invariant 0 <= i <= |nodes|
          invariant temp == At(nodes, i)
          invariant prev == if i == 0 then nodes[0] else nodes[i - 1]
          decreases |nodes| - i
        {
          assert nodes[i].next == At(nodes, i + 1);
          prev := temp;
          temp := temp.next;
          i := i + 1;
        }
        prev.next := node;
      }
      node.rank := if nodes == [] then 0 else nodes[0].rank + |nodes|;
      nodes := nodes + [node];
      repr := repr + {node};
    }

    // _checkRecvList2
    method Check(cmd: u16) returns (complete: bool)
      requires Valid()
      ensures complete == Complete(Pending(), cmd)
    {
      var p := head;
      var totalnum := -1;
      var num := 0;
      ghost var i := 0;
      ghost var s := Pending();
      while p != null
        invariant 0 <= i <= |nodes|
        invariant p == At(nodes, i)
        invariant 0 <= num && -1 <= totalnum && (totalnum == -1 <==> num == 0) && num != totalnum
        invariant totalnum != -1 ==> 1 <= num < totalnum
        invariant Count(s, cmd) == num + Count(s[i..], cmd)
        invariant FirstLastNo(s, cmd) == if totalnum == -1 then FirstLastNo(s[i..], cmd) else totalnum - 1
        decreases |nodes| - i
      {
        assert s[i..][0] == p.info && s[i..][1..] == s[i + 1..];
        if p.info.cmd == cmd {
          num := num + 1;
          if totalnum == -1 {
            totalnum := p.info.lastNo + 1;
          }
        }
        if num == totalnum {
          return true;
        }
        assert nodes[i].next == At(nodes, i + 1);
        p := p.next;
        i := i + 1;
      }
      return false;
    }

    // The payloads of a command's fragments, glued in list order (_addcmd).
    method Collect(cmd: u16) returns (data: seq<byte>)
      requires Valid()
      ensures data == Gather(Pending(), cmd)
    {
      data := [];
      var p := head;
      ghost var i := 0;
      ghost var s := Pending();
      while p != null
        invariant 0 <= i <= |nodes|
        invariant p == At(nodes, i)
        invariant Gather(s, cmd) == data + Gather(s[i..], cmd)
        decreases |nodes| - i
      {
        GatherFrom(s, i, cmd, data);
        if |p.info.payload| > 0 && p.info.cmd == cmd {
          data := data + p.info.payload;
        }
        assert nodes[i].next == At(nodes, i + 1);
        p := p.next;
        i := i + 1;
      }
    }

    // Half way through the removal: i nodes visited, the survivors among them lie between first and last.
    ghost predicate Walk(cmd: u16, i: int, first: int, last: int)
      reads this, repr
    {
      && 0 <= i <= |nodes|
      && (forall a | 0 <= a < |nodes| :: nodes[a] in repr)
      && (forall a | 0 <= a < |nodes| :: nodes[a].rank == nodes[0].rank + a)
      && -1 <= last < i && 0 <= first <= i
      && (if last == -1 then first == i
          else first <= last && nodes[first].info.cmd != cmd && nodes[last].info.cmd != cmd)
      && (forall a | 0 <= a < first :: nodes[a].info.cmd == cmd)
      && (forall a | last < a < i :: nodes[a].info.cmd == cmd)
      && head == At(nodes, first)
      && (forall a {:trigger nodes[a].next} | 0 <= a < |nodes| ::
            nodes[a].next == if i == |nodes| && a == last then null else At(nodes, a + 1))
      && (forall a | 0 <= a < |nodes| :: nodes[a].freed <==> a < i && nodes[a].info.cmd == cmd)
    }

    lemma WalkStarts(cmd: u16)
      requires Valid()
      ensures Walk(cmd, 0, 0, -1)
    {
    }

    // A matching node: relink around it if it is the head so far or the last, then free it.
    method Drop(p: Node, prev: Node?, cmd: u16, ghost i: int, ghost first: int, ghost last: int)
      returns (next: Node?)
      requires Walk(cmd, i, first, last) && i < |nodes| && p == nodes[i] && prev == At(nodes, last) && p.info.cmd == cmd
      modifies this`head, repr
      ensures next == At(nodes, i + 1)
      ensures Walk(cmd, i + 1, if last == -1 then i + 1 else first, last)
    {
      next := Relink(p, prev, cmd, i, first, last);
      p.freed := true;
    }

    method Relink(p: Node, prev: Node?, cmd: u16, ghost i: int, ghost first: int, ghost last: int)
      returns (next: Node?)
      requires Walk(cmd, i, first, last) && i < |nodes| && p == nodes[i] && prev == At(nodes, last) && p.info.cmd == cmd
      modifies this`head, repr`next
      ensures next == At(nodes, i + 1) && head == At(nodes, if last == -1 then i + 1 else first)
      ensures forall a {:trigger nodes[a].next} | 0 <= a < |nodes| ::
        nodes[a].next == if i + 1 == |nodes| && a == last then null else At(nodes, a + 1)
    {
      if prev == null {
        head := p.next;
      }
      if p.next == null {
        if prev != null {
          prev.next := null;
        }
      }
      next := p.next;
    }

    // A node that does not match is walked past.
    lemma WalkPast(cmd: u16, i: int, first: int, last: int)
      requires Walk(cmd, i, first, last) && i < |nodes| && nodes[i].info.cmd != cmd
      ensures nodes[i].next == At(nodes, i + 1)
      ensures Walk(cmd, i + 1, if last == -1 then i else first, i)
    {
    }

    // The body of the loop of _destoryRecvList2.
    method Visit(p: Node, prev: Node?, cmd: u16, ghost i: int, ghost first: int, ghost last: int)
      returns (next: Node?, prev': Node?, ghost first': int, ghost last': int)
      requires Walk(cmd, i, first, last) && i < |nodes| && p == nodes[i] && prev == At(nodes, last)
      modifies this`head, repr
      ensures Walk(cmd, i + 1, first', last') && next == At(nodes, i + 1) && prev' == At(nodes, last')
    {
      if p.info.cmd == cmd {
        next := Drop(p, prev, cmd, i, first, last);
        first', last', prev' := if last == -1 then i + 1 else first, last, prev;
      } else {
        WalkPast(cmd, i, first, last);
        first', last', prev' := if last == -1 then i else first, i, p;
        next := p.next;
      }
    }

    method Unlink(cmd: u16) returns (ghost first: int, ghost last: int)
      requires Valid()
      modifies this`head, repr
      ensures Walk(cmd, |nodes|, first, last)
    {
      var p := head;
      var prev: Node? := null;
      ghost var i := 0;
      first, last := 0, -1;
      WalkStarts(cmd);
      while p != null
        invariant Walk(cmd, i, first, last)
        invariant p == At(nodes, i) && prev == At(nodes, last)
        decreases |nodes| - i
      {
        p, prev, first, last := Visit(p, prev, cmd, i, first, last);
        i := i + 1;
      }
    }

    ghost function Survivors(first: int, last: int): seq<Node>
      reads this
      requires last == -1 || 0 <= first <= last < |nodes|
    {
      if last == -1 then [] else nodes[first..last + 1]
    }

    lemma SliceIsChain(mid: seq<Node>, first: int, last: int)
      requires 0 <= first <= last < |nodes| && mid == nodes[first..last + 1]
      requires forall a | 0 <= a < |nodes| :: nodes[a] in repr
      requires forall a | 0 <= a < |nodes| :: nodes[a].rank == nodes[0].rank + a
      requires forall a {:trigger nodes[a].next} | 0 <= a < |nodes| ::
        nodes[a].next == if a == last then null else At(nodes, a + 1)
      ensures Chain(nodes[first], mid, repr)
    {
      forall k | 0 <= k < |mid|
        ensures mid[k] in repr && mid[k].next == At(mid, k + 1) && mid[k].rank == mid[0].rank + k
      {
        assert mid[k] == nodes[first + k];
      }
    }

    lemma WalkEnds(cmd: u16, first: int, last: int)
      requires Walk(cmd, |nodes|, first, last)
      ensures Chain(head, Survivors(first, last), repr)
      ensures Infos(Survivors(first, last)) == Strip(Infos(nodes), cmd)
      ensures forall n | n in Survivors(first, last) :: n.freed <==> n.info.cmd == cmd
    {
      StripIsMiddle(Infos(nodes), cmd, first, last);
      assert Infos(Survivors(first, last)) == if last == -1 then [] else Infos(nodes)[first..last + 1];
      if last != -1 {
        SliceIsChain(Survivors(first, last), first, last);
      }
    }

    // Whether a freed node is still on the chain.
    static lemma LiveUnlessSandwiched(all: seq<Fragment>, nodes: seq<Node>, cmd: u16)
      requires Infos(nodes) == Strip(all, cmd)
      requires forall n | n in nodes :: n.freed <==> n.info.cmd == cmd
      ensures (forall i | 0 <= i < |nodes| :: !nodes[i].freed) <==> !Sandwiched(all, cmd)
    {
      StripIsExact(all, cmd);
      if Sandwiched(all, cmd) {
        var k := MatchLeft(all, cmd);
        assert Infos(nodes)[k] == nodes[k].info;
      } else {
        OthersDoNotMatch(all, cmd);
        forall i | 0 <= i < |nodes| ensures !nodes[i].freed {
          assert Infos(nodes)[i] in Others(all, cmd);
        }
      }
    }

    // _destoryRecvList2: the code relinks around a matching node only when no survivor has been seen yet, or when
    // the node is the last one.  A matching node between two survivors is freed and stays on the chain.
    method Destroy(cmd: u16)
      requires Valid()
      modifies this, repr
      ensures Linked() && Pending() == Strip(old(Pending()), cmd) && repr == old(repr)
      ensures Valid() <==> !Sandwiched(old(Pending()), cmd)
    {
      ghost var first, last := Unlink(cmd);
      WalkEnds(cmd, first, last);
      LiveUnlessSandwiched(Infos(nodes), Survivors(first, last), cmd);
      nodes := Survivors(first, last);
    }

    // Deliver the fragment's command if it is complete now.
    method Deliver(f: Fragment) returns (r: Option<Command>)
      requires Valid()
      modifies this, repr
      ensures repr == old(repr) && dangling == !Valid()
      ensures (r, Pending(), dangling) == Settle(old(Pending()), f)
    {
      var complete := Check(f.cmd);
      if complete {
        var data := Collect(f.cmd);
        Destroy(f.cmd);
        r := Some(Command(f.cmd, f.kind, f.ipnum, data));
      } else {
        r := None;
      }
      dangling := !Valid();
    }

    // The second half of the parser's turn: file the fragment if its CRC let it in, then deliver.
    method Take(f: Fragment, accepted: bool) returns (r: Option<Command>)
      requires Sound() && !dangling
      modifies this, repr
      ensures Sound() && fresh(repr - old(repr))
      ensures (r, Pending(), dangling) == Settle(File(old(Pending()), f, accepted), f)
    {
      if accepted {
        var node := new Node(f);
        Add(node);
      }
      r := Deliver(f);
    }
  }
}
