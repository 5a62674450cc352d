// The locked sections of pgos/MsOS_queue.c on its linked lists are the steps of the runs.
module QueueSteps {
  import opened Wrappers
  import opened MsgQueues
  import opened QueueRuns

  // A list of nodes and their numbers.
  ghost predicate Numbered(nodes: seq<MsgNode>, numbers: seq<nat>, all: seq<MsgNode>) {
    |numbers| == |nodes| && forall k | 0 <= k < |nodes| :: numbers[k] < |all| && all[numbers[k]] == nodes[k]
  }

  // The two lists of nodes are those of the run, and each node carries the text the run says.
  ghost predicate Shows(m: MsgQueue, q: Queue, all: seq<MsgNode>)
    reads m, m.free, m.used, m.free.repr, m.used.repr, all
  {
    && m.Valid() && q.maxSizeOfMsg == m.maxSizeOfMsg && |q.text| == |all|
    && Numbered(m.free.nodes, q.free, all) && Numbered(m.used.nodes, q.used, all)
    && forall n | 0 <= n < |all| :: q.text[n] == Text(all[n])
  }

  // QueueClaim
  method TakeFreeNode(m: MsgQueue, ghost q: Queue, ghost all: seq<MsgNode>, ghost i: nat) returns (p: MsgNode)
    requires Shows(m, q, all) && Enabled(q, TakeFree(i)) && q.free != []
    modifies m.free, m.free.repr
    ensures var q' := DoSend(q, TakeFree(i));
            && Shows(m, q', all) && m.InHand(p)
            && q'.senders[i].node < |all| && p == all[q'.senders[i].node]
  {
    hide Text;
    p := m.Claim();
  }

  // memcpy into the node in hand
  method FillNode(m: MsgQueue, p: MsgNode, data: seq<byte>, ghost q: Queue, ghost all: seq<MsgNode>, ghost i: nat)
    requires Shows(m, q, all) && Enabled(q, QueueRuns.Fill(i)) && m.InHand(p) && p == all[q.senders[i].node]
    requires data == q.senders[i].data && |data| <= m.maxSizeOfMsg
    requires forall n, k | 0 <= n < k < |all| :: all[n] != all[k]
    modifies p
    ensures Shows(m, DoSend(q, QueueRuns.Fill(i)), all) && m.InHand(p) && p.msgRealSize <= m.maxSizeOfMsg
  {
    hide Text;
    m.Fill(p, data);
  }

  // A send that gives up
  method GiveUpNode(m: MsgQueue, p: MsgNode, ghost q: Queue, ghost all: seq<MsgNode>, ghost i: nat)
    requires Shows(m, q, all) && Enabled(q, QueueRuns.Fill(i)) && m.InHand(p) && p == all[q.senders[i].node]
    requires |q.senders[i].data| > m.maxSizeOfMsg
    modifies m.free, m.free.repr, p
    ensures Shows(m, DoSend(q, QueueRuns.Fill(i)), all)
  {
    hide Text;
    m.GiveBack(p);
  }

  // QueueSend
  method LinkNode(m: MsgQueue, p: MsgNode, ghost q: Queue, ghost all: seq<MsgNode>, ghost i: nat)
    requires Shows(m, q, all) && Enabled(q, LinkUsed(i)) && m.InHand(p) && p.msgRealSize <= m.maxSizeOfMsg
    requires q.senders[i].node < |all| && p == all[q.senders[i].node]
    modifies m.used, m.used.repr, p
    ensures Shows(m, DoSend(q, LinkUsed(i)), all)
  {
    hide Text;
    m.Link(p);
  }

  // QueueRecv
  method RemoveNode(m: MsgQueue, ghost q: Queue, ghost all: seq<MsgNode>, ghost i: nat) returns (p: MsgNode)
    requires Shows(m, q, all) && Enabled(q, RemoveUsed(i)) && q.used != []
    modifies m.used, m.used.repr
    ensures var q' := DoRecv(q, RemoveUsed(i));
            && Shows(m, q', all) && m.InHand(p) && p.msgRealSize <= m.maxSizeOfMsg
            && q'.receivers[i].node < |all| && p == all[q'.receivers[i].node]
  {
    hide Text;
    p := m.Unlink();
  }

  // QueueFree
  method FreeNode(m: MsgQueue, p: MsgNode, ghost q: Queue, ghost all: seq<MsgNode>, ghost i: nat)
    requires Shows(m, q, all) && Enabled(q, LinkFree(i)) && m.InHand(p)
    requires q.receivers[i].node < |all| && p == all[q.receivers[i].node]
    modifies m.free, m.free.repr, p
    ensures Shows(m, DoRecv(q, LinkFree(i)), all)
  {
    hide Text;
    m.GiveBack(p);
  }
}
