// The message queue of pgos/MsOS_queue.c: nodes of one pool, each on the free list or the used list or in a
// process's hands, linked through the nodes themselves.
module MsgQueues {
  import opened Wrappers

  class MsgNode {
    var prev: MsgNode?
    var next: MsgNode?
    var msgRealSize: nat
    var msg: seq<byte>
    ghost var rank: int   // counts up by one along a list

    constructor (size: nat)
      ensures prev == null && next == null && |msg| == size && msgRealSize == 0
    {
      prev, next, msgRealSize := null, null, 0;
      msg := seq(size, _ => 0);
    }
  }

  ghost function At(nodes: seq<MsgNode>, i: int): MsgNode? {
    if 0 <= i < |nodes| then nodes[i] else null
  }

  // Where prev points: to the node before, and from the first node to the last.
  ghost function Before(nodes: seq<MsgNode>, i: int): MsgNode? {
    if i == 0 then At(nodes, |nodes| - 1) else At(nodes, i - 1)
  }

  class NodeList {
    var head: MsgNode?
    ghost var nodes: seq<MsgNode>
    ghost var repr: set<MsgNode>

    ghost predicate Valid()
      reads this, repr
    {
      && (forall i | 0 <= i < |nodes| :: nodes[i] in repr)
      && (forall i | 0 <= i < |nodes| :: nodes[i].rank == nodes[0].rank + i)
      && head == At(nodes, 0)
      && (forall i {:trigger nodes[i].next} | 0 <= i < |nodes| :: nodes[i].next == At(nodes, i + 1))
      && (forall i {:trigger nodes[i].prev} | 0 <= i < |nodes| :: nodes[i].prev == Before(nodes, i))
    }

    constructor ()
      ensures Valid() && nodes == [] && repr == {}
    {
      head, nodes, repr := null, [], {};
    }

    // _AddToListTail
    method AddTail(p: MsgNode)
      requires Valid() && p !in repr
      modifies this, repr, p
      ensures Valid() && nodes == old(nodes) + [p] && repr == old(repr) + {p}
      ensures p.msg == old(p.msg) && p.msgRealSize == old(p.msgRealSize)
      ensures forall n | n in old(repr) :: n.msg == old(n.msg) && n.msgRealSize == old(n.msgRealSize)
    {
      if head == null {
        head := p;
        p.prev := p;
        p.next := null;
      } else {
        var cur := head;
        ghost var last := nodes[|nodes| - 1];
        assert cur.prev == last && cur.rank + (|nodes| - 1) == last.rank by {
          assert nodes[0].prev == Before(nodes, 0);
        }
        assert forall i | 0 <= i < |nodes| :: nodes[i] == last ==> i == |nodes| - 1;
        assert forall i | 0 <= i < |nodes| :: nodes[i] == cur ==> i == 0;
        p.prev := cur.prev;
        p.next := null;
        cur.prev.next := p;
        cur.prev := p;
      }
      p.rank := if nodes == [] then 0 else nodes[0].rank + |nodes|;
      nodes := nodes + [p];
      repr := repr + {p};
    }

    // _RemoveFromListHead
    method RemoveHead() returns (p: MsgNode?)
      requires Valid()
      modifies this, repr
      ensures Valid()
      ensures p == At(old(nodes), 0)
      ensures p == null ==> nodes == old(nodes) && repr == old(repr)
      ensures p != null ==> nodes == old(nodes)[1..] && repr == old(repr) - {p} && p in old(repr)
      ensures forall n | n in old(repr) :: n.msg == old(n.msg) && n.msgRealSize == old(n.msgRealSize)
    {
      p := head;
      if head != null {
        assert nodes[0].next == At(nodes, 1) && nodes[0].prev == Before(nodes, 0);
        if head.next != null {
          head.next.prev := head.prev;
        }
        head := head.next;
        nodes := nodes[1..];
        repr := repr - {p};
      }
    }
  }

  // The message a node carries.
  ghost function Text(n: MsgNode): seq<byte>
    reads n
  {
    Truncate(n.msg, n.msgRealSize)
  }

  ghost function Texts(nodes: seq<MsgNode>): (s: seq<seq<byte>>)
    reads nodes
    ensures |s| == |nodes| && forall i | 0 <= i < |nodes| :: s[i] == Text(nodes[i])
  {
    if nodes == [] then [] else [Text(nodes[0])] + Texts(nodes[1..])
  }

  function Truncate(m: seq<byte>, size: nat): seq<byte> {
    if |m| <= size then m else m[..size]
  }

  class MsgQueue {
    const maxSizeOfMsg: nat
    const free: NodeList
    const used: NodeList

    ghost predicate Valid()
      reads this, free, used, free.repr, used.repr
    {
      && free != used
      && free.Valid() && used.Valid()
      && free.repr !! used.repr
      && (forall i | 0 <= i < |free.nodes| :: |free.nodes[i].msg| == maxSizeOfMsg)
      && (forall i | 0 <= i < |used.nodes| ::
           |used.nodes[i].msg| == maxSizeOfMsg && used.nodes[i].msgRealSize <= maxSizeOfMsg)
    }

    // What is queued, oldest first.
    ghost function Messages(): seq<seq<byte>>
      requires Valid()
      reads this, free, used, free.repr, used.repr
    {
      Texts(used.nodes)
    }

    // MsOS_CreateQueue
    constructor (num: nat, size: nat)
      ensures Valid() && maxSizeOfMsg == size && Messages() == [] && |free.nodes| == num
      ensures fresh(free) && fresh(used) && fresh(free.repr) && fresh(used.repr)
    {
      maxSizeOfMsg := size;
      free := new NodeList();
      used := new NodeList();
      new;
      for i := 0 to num
        invariant Valid() && |free.nodes| == i && used.nodes == []
        invariant fresh(free) && fresh(used) && fresh(free.repr) && fresh(used.repr)
      {
        var node := new MsgNode(size);
        free.AddTail(node);
      }
    }

    // A node in a process's hands.
    ghost predicate InHand(p: MsgNode)
      reads this, free, used, p
    {
      p !in free.repr && p !in used.repr && |p.msg| == maxSizeOfMsg
    }

    // The locked part of QueueClaim.
    method Claim() returns (p: MsgNode)
      requires Valid() && free.nodes != []
      modifies free, free.repr
      ensures Valid() && InHand(p) && p in old(free.repr)
      ensures free.repr == old(free.repr) - {p} && used.repr == old(used.repr)
      ensures p == old(free.nodes[0]) && free.nodes == old(free.nodes)[1..]
      ensures used.nodes == old(used.nodes) && Messages() == old(Messages())
      ensures forall n | n in old(free.repr) :: Text(n) == old(Text(n))
    {
      assert free.nodes[0] in free.repr;
      p := free.RemoveHead();
    }

    // The locked part of QueueFree, and of a send that gives up.
    method GiveBack(p: MsgNode)
      requires Valid() && InHand(p)
      modifies free, free.repr, p
      ensures Valid() && free.repr == old(free.repr) + {p} && used.repr == old(used.repr)
      ensures free.nodes == old(free.nodes) + [p] && used.nodes == old(used.nodes) && Messages() == old(Messages())
      ensures forall n | n in free.repr :: Text(n) == old(Text(n))
    {
      free.AddTail(p);
    }

    // The locked part of QueueSend.
    method Link(p: MsgNode)
      requires Valid() && InHand(p) && p.msgRealSize <= maxSizeOfMsg
      modifies used, used.repr, p
      ensures Valid() && used.repr == old(used.repr) + {p} && free.repr == old(free.repr)
      ensures used.nodes == old(used.nodes) + [p] && free.nodes == old(free.nodes)
      ensures Messages() == old(Messages()) + [old(Text(p))]
      ensures forall n | n in used.repr :: Text(n) == old(Text(n))
    {
      used.AddTail(p);
    }

    // The locked part of QueueRecv.
    method Unlink() returns (p: MsgNode)
      requires Valid() && used.nodes != []
      modifies used, used.repr
      ensures Valid() && InHand(p) && p in old(used.repr) && p.msgRealSize <= maxSizeOfMsg
      ensures used.repr == old(used.repr) - {p} && free.repr == old(free.repr)
      ensures p == old(used.nodes[0]) && used.nodes == old(used.nodes)[1..] && free.nodes == old(free.nodes)
      ensures Text(p) == old(Messages())[0] && Messages() == old(Messages())[1..]
      ensures forall n | n in old(used.repr) :: Text(n) == old(Text(n))
    {
      assert used.nodes[0] in used.repr;
      p := used.RemoveHead();
    }

    // memcpy into a node in hand
    method Fill(p: MsgNode, data: seq<byte>)
      requires Valid() && InHand(p) && |data| <= maxSizeOfMsg
      modifies p
      ensures Valid() && InHand(p) && p.msgRealSize == |data| && Text(p) == data
      ensures Messages() == old(Messages())
    {
      assert forall i | 0 <= i < |used.nodes| :: used.nodes[i] in used.repr;
      p.msg := data + p.msg[|data|..];
      p.msgRealSize := |data|;
      assert Text(p) == data;
      assert Messages() == old(Messages());
    }

    // MsOS_SendToQueue once its send permit is granted; a message that is too long goes nowhere.
    method Send(data: seq<byte>) returns (ok: bool)
      requires Valid() && free.nodes != []
      modifies free, used, free.repr, used.repr
      ensures Valid() && free.repr + used.repr == old(free.repr + used.repr)
      ensures ok <==> |data| <= maxSizeOfMsg
      ensures Messages() == if ok then old(Messages()) + [data] else old(Messages())
      ensures |free.nodes| == old(|free.nodes|) - if ok then 1 else 0
    {
      var p := Claim();
      if maxSizeOfMsg >= |data| {
        Fill(p, data);
        Link(p);
        ok := true;
      } else {
        GiveBack(p);
        ok := false;
      }
    }

    // MsOS_RecvFromQueue once its receive permit is granted.
    method Recv(intendedSize: nat) returns (message: seq<byte>)
      requires Valid() && used.nodes != []
      modifies free, used, free.repr, used.repr
      ensures Valid() && free.repr + used.repr == old(free.repr + used.repr)
      ensures var m := old(Messages())[0]; message == if |m| <= intendedSize then m else m[..intendedSize]
      ensures Messages() == old(Messages())[1..] && |free.nodes| == old(|free.nodes|) + 1
    {
      var p := Unlink();
      if p.msgRealSize <= intendedSize {
        message := p.msg[..p.msgRealSize];
      } else {
        message := p.msg[..intendedSize];
      }
      GiveBack(p);
    }
  }
}
