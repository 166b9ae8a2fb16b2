/**
 A connection: one end pushes and sends, the other receives. Whatever the sizes of the socket writes
 and reads, the messages arrive in order, complete and unchanged.
 */
module NetExchange {
  import opened WireSpec
  import opened Net
  import opened NetReceive

  datatype Op =
    | Push(m: Message, taken: seq<int>)
    | Send(taken: seq<int>)
    | Deliver(n: nat)
    | MoveAll
    | Pop

  /** The frames the receiving end has or has handed on. */
  ghost function Arrived(r: Receiver): seq<Frame>
    reads r
  {
    r.handedOn + FramesIn(r.vProcessMsg) + FramesIn(Finished(r.vRecvMsg))
  }

  predicate AllSendable(ms: seq<Message>) { forall i :: 0 <= i < |ms| ==> Sendable(ms[i]) }

  ghost predicate Connected(q: SendQueue, r: Receiver)
    reads q, r
  {
    q.Valid() && r.Valid() && AllSendable(q.pushed) && r.received <= q.wire
  }

  /** The messages that arrived are the first ones pushed, with exact commands and payloads. */
  lemma ArrivedInOrder(q: SendQueue, r: Receiver)
    requires Connected(q, r)
    ensures |Arrived(r)| <= |q.pushed|
    ensures forall i :: 0 <= i < |Arrived(r)| ==>
            |Arrived(r)[i].header| == HEADER_SIZE && MessageOf(Arrived(r)[i]) == q.pushed[i]
  {
    var stream := EncodeAll(q.net, q.pushed);
    assert q.wire <= stream;
    PrefixOfMessages(q.net, q.pushed, r.received);
  }

  /** With everything sent and received, all messages have arrived. */
  lemma AllArrived(q: SendQueue, r: Receiver)
    requires Connected(q, r) && q.vSendMsg == [] && r.received == q.wire
    ensures |Arrived(r)| == |q.pushed| && Pending(r.vRecvMsg) == []
  {
    assert q.vSendMsg[0..] == [] && Flat([]) == [];
    assert q.wire + [] == q.wire;
    StreamOfMessages(q.net, q.pushed);
  }

  /** The other end never disconnects over what an honest sender sends. */
  lemma NeverOversized(q: SendQueue, r: Receiver, n: nat)
    requires Connected(q, r) && n <= |q.wire|
    ensures !Oversized(q.wire[..n])
  {
    var stream := EncodeAll(q.net, q.pushed);
    assert q.wire <= stream;
    assert q.wire[..n] <= stream;
    PrefixOfMessages(q.net, q.pushed, q.wire[..n]);
  }

  // Read up to `n` of the bytes under way.
  method Receive(q: SendQueue, r: Receiver, n: nat)
    requires Connected(q, r)
    modifies r`vRecvMsg, r`received
    ensures Connected(q, r) && old(r.received) <= r.received && r.handedOn == old(r.handedOn)
    ensures |r.received| == if |old(r.received)| + n <= |q.wire| then |old(r.received)| + n else |q.wire|
  {
    var from := |r.received|;
    var to := if from + n <= |q.wire| then from + n else |q.wire|;
    assert r.received + q.wire[from..to] == q.wire[..to];
    NeverOversized(q, r, to);
    var ok, complete := r.ReceiveMsgBytes(q.wire[from..to]);
    assert ok;
  }

  method Step(q: SendQueue, r: Receiver, op: Op)
    requires Connected(q, r) && (op.Push? ==> Sendable(op.m))
    modifies q, r
    ensures Connected(q, r) && old(q.pushed) <= q.pushed && old(q.wire) <= q.wire && old(r.handedOn) <= r.handedOn
  {
    match op
    case Push(m, taken) => var n, k := q.PushMessage(m, taken);
    case Send(taken) => var n, k := q.SocketSendData(taken);
    case Deliver(n) => Receive(q, r, n);
    case MoveAll => var n := r.MoveComplete();
    case Pop => if r.vProcessMsg != [] { var m := r.PopMessage(); }
  }

  /**
   After any interleaving of pushes, partial writes and reads of any size, what arrived is a prefix of what was
   pushed.
   */
  method Run(q: SendQueue, r: Receiver, ops: seq<Op>)
    requires Connected(q, r) && forall i :: 0 <= i < |ops| ==> ops[i].Push? ==> Sendable(ops[i].m)
    modifies q, r
    ensures Connected(q, r) && old(q.pushed) <= q.pushed && old(r.handedOn) <= r.handedOn
    ensures |Arrived(r)| <= |q.pushed|
    ensures forall i :: 0 <= i < |Arrived(r)| ==>
            |Arrived(r)[i].header| == HEADER_SIZE && MessageOf(Arrived(r)[i]) == q.pushed[i]
  {
    for k := 0 to |ops|
      invariant Connected(q, r) && old(q.pushed) <= q.pushed && old(r.handedOn) <= r.handedOn
    {
      Step(q, r, ops[k]);
    }
    ArrivedInOrder(q, r);
  }

  /** A send that covers the queue and a delivery of everything under way make all messages arrive. */
  method Flush(q: SendQueue, r: Receiver, taken: seq<int>)
    requires Connected(q, r) && Covers(taken, q.vSendMsg)
    modifies q, r
    ensures Connected(q, r) && q.pushed == old(q.pushed) && q.vSendMsg == [] && r.received == q.wire
    ensures |Arrived(r)| == |q.pushed| && Pending(r.vRecvMsg) == []
    ensures forall i :: 0 <= i < |Arrived(r)| ==>
            |Arrived(r)[i].header| == HEADER_SIZE && MessageOf(Arrived(r)[i]) == q.pushed[i]
  {
    var n, k := q.SocketSendData(taken);
    Receive(q, r, |q.wire|);
    AllArrived(q, r);
    ArrivedInOrder(q, r);
  }
}
