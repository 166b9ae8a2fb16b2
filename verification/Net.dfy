/**
 Sending and receiving P2P messages (src/net.h, src/net.cpp): a send queue drained by partial socket
 writes, and a parser that takes the stream in arbitrary pieces.
 */
module Net {
  import opened WireSpec

  // ---- Sending ----

  /** The queued bytes, in order. */
  function Flat(bufs: seq<seq<Byte>>): seq<Byte> { if bufs == [] then [] else bufs[0] + Flat(bufs[1..]) }

  function TotalSize(bufs: seq<seq<Byte>>): nat { if bufs == [] then 0 else |bufs[0]| + TotalSize(bufs[1..]) }

  lemma {:induction false} FlatAppend(a: seq<seq<Byte>>, b: seq<Byte>)
    ensures Flat(a + [b]) == Flat(a) + b && TotalSize(a + [b]) == TotalSize(a) + |b|
  {
    if a == [] {
      assert a + [b] == [b] && Flat([b][1..]) == [] && TotalSize([b][1..]) == 0;
    } else {
      assert (a + [b])[1..] == a[1..] + [b];
      FlatAppend(a[1..], b);
    }
  }

  predicate NonEmptyAll(bufs: seq<seq<Byte>>) { forall i :: 0 <= i < |bufs| ==> bufs[i] != [] }

  /** What the socket answers to a call: nothing once its answers have run out. */
  function Answer(taken: seq<int>, call: nat): int { if call < |taken| then taken[call] else 0 }

  /** What a call offers: the rest of the first buffer, then buffer by buffer. */
  function Offer(bufs: seq<seq<Byte>>, offset: nat, call: nat): int
    requires call < |bufs|
  {
    if call == 0 then |bufs[0]| - offset else |bufs[call]|
  }

  /** The sum of the first `n` answers, each cut to what was offered. */
  function AnswersCut(bufs: seq<seq<Byte>>, offset: nat, taken: seq<int>, n: nat): int
    requires n <= |bufs|
  {
    if n == 0 then 0
    else AnswersCut(bufs, offset, taken, n - 1) + Max(0, Least(Answer(taken, n - 1), Offer(bufs, offset, n - 1)))
  }

  /**
   After a queue was offered, `k` buffers are gone: each was taken whole, and either there were no more or
   the next call was answered with less than the whole buffer, of which that much is marked as sent.
   */
  ghost predicate Drained(bufs: seq<seq<Byte>>, offset: nat, taken: seq<int>, k: nat, bufs': seq<seq<Byte>>,
                          offset': nat) {
    && k <= |bufs| && bufs' == bufs[k..]
    && (forall c :: 0 <= c < k ==> Answer(taken, c) >= Offer(bufs, offset, c))
    && (if k == |bufs| then offset' == 0
        else && Answer(taken, k) < Offer(bufs, offset, k)
             && offset' == (if k == 0 then offset else 0) + Max(0, Answer(taken, k)))
  }

  // The first `it` buffers were taken whole.
  ghost predicate TakenWhole(bufs: seq<seq<Byte>>, offset: nat, taken: seq<int>, it: nat, offset': nat, sent: nat) {
    && it <= |bufs| && offset' == (if it == 0 then offset else 0)
    && (forall c :: 0 <= c < it ==> Answer(taken, c) >= Offer(bufs, offset, c))
    && sent == AnswersCut(bufs, offset, taken, it) && (it > 0 ==> sent > 0)
  }

  lemma TakenNext(bufs: seq<seq<Byte>>, offset: nat, taken: seq<int>, it: nat, sent: nat, n: nat)
    requires it < |bufs| && Offer(bufs, offset, it) > 0
    requires TakenWhole(bufs, offset, taken, it, if it == 0 then offset else 0, sent)
    requires n == Max(0, Least(Answer(taken, it), Offer(bufs, offset, it)))
    ensures sent + n == AnswersCut(bufs, offset, taken, it + 1)
    ensures Answer(taken, it) >= Offer(bufs, offset, it) ==> TakenWhole(bufs, offset, taken, it + 1, 0, sent + n)
  {
  }

  /** The answers are enough for a whole queue. */
  ghost predicate Covers(taken: seq<int>, bufs: seq<seq<Byte>>) {
    |taken| >= |bufs| && forall c :: 0 <= c < |bufs| ==> taken[c] >= |bufs[c]|
  }

  class SendQueue {
    const net: Network
    const nSendBufferMaxSize: nat
    var vSendMsg: seq<seq<Byte>>
    var nSendSize: int
    var nSendOffset: nat
    var nSendBytes: nat
    var fPauseSend: bool
    /** The bytes the socket has taken. */
    var wire: seq<Byte>
    ghost var pushed: seq<Message>

    /** The queue from a buffer on, without its sent part, is what the socket has yet to take. */
    ghost predicate ValidFrom(it: nat)
      requires it <= |vSendMsg|
      reads this
    {
      && net.Valid() && NonEmptyAll(vSendMsg) && nSendBytes == |wire| &&
         (fPauseSend <==> nSendSize > nSendBufferMaxSize)
      && Queued(vSendMsg[it..], nSendSize, nSendOffset, wire, EncodeAll(net, pushed))
    }

    /** Counters are exact, and bytes out and bytes queued make up the pushed messages. */
    ghost predicate Valid()
      reads this
    {
      ValidFrom(0)
    }

    constructor (network: Network, maxSize: nat)
      requires network.Valid()
      ensures Valid() && net == network && nSendBufferMaxSize == maxSize && vSendMsg == [] && pushed == [] && wire == []
    {
      net, nSendBufferMaxSize := network, maxSize;
      vSendMsg, nSendSize, nSendOffset, nSendBytes, fPauseSend := [], 0, 0, 0, false;
      pushed, wire := [], [];
    }

    // The socket takes part of a buffer.
    method TakePart(it: nat, nBytes: nat)
      requires it < |vSendMsg| && ValidFrom(it) && 0 < nBytes < |vSendMsg[it]| - nSendOffset
      modifies this`nSendOffset, this`nSendBytes, this`wire
      ensures ValidFrom(it) && wire == old(wire) + vSendMsg[it][old(nSendOffset)..old(nSendOffset) + nBytes]
      ensures nSendOffset == old(nSendOffset) + nBytes
    {
      ghost var bufs := vSendMsg[it..];
      QueuedLess(bufs, nSendSize, nSendOffset, wire, EncodeAll(net, pushed), nBytes);
      assert bufs[0] == vSendMsg[it];
      wire, nSendBytes, nSendOffset := wire + vSendMsg[it][nSendOffset..nSendOffset + nBytes], nSendBytes + nBytes,
        nSendOffset + nBytes;
    }

    // The socket takes what is left of a buffer.
    method TakeAll(it: nat)
      requires it < |vSendMsg| && ValidFrom(it)
      modifies this`nSendSize, this`nSendOffset, this`nSendBytes, this`fPauseSend, this`wire
      ensures ValidFrom(it + 1) && wire == old(wire) + vSendMsg[it][old(nSendOffset)..] && nSendOffset == 0
    {
      ghost var bufs := vSendMsg[it..];
      var nBytes, left := |vSendMsg[it]| - nSendOffset, nSendSize - |vSendMsg[it]|;
      QueuedLess(bufs, nSendSize, nSendOffset, wire, EncodeAll(net, pushed), nBytes);
      assert bufs[0] == vSendMsg[it] && bufs[1..] == vSendMsg[it + 1..];
      var out := wire + vSendMsg[it][nSendOffset..nSendOffset + nBytes];
      wire, nSendBytes, nSendOffset, nSendSize, fPauseSend := out, nSendBytes + nBytes, 0, left,
        left > nSendBufferMaxSize;
    }

    // Offer what is left of a buffer; `answer` is what the socket would accept, zero or less if nothing.
    method OfferNext(it: nat, answer: int) returns (nBytes: nat, whole: bool)
      requires it < |vSendMsg| && ValidFrom(it)
      modifies this`nSendSize, this`nSendOffset, this`nSendBytes, this`fPauseSend, this`wire
      ensures whole <==> answer >= |vSendMsg[it]| - old(nSendOffset)
      ensures nBytes == if whole then |vSendMsg[it]| - old(nSendOffset) else Max(0, answer)
      ensures ValidFrom(if whole then it + 1 else it) && nSendOffset == if whole then 0 else old(nSendOffset) + nBytes
      ensures old(wire) <= wire && |wire| == |old(wire)| + nBytes
    {
      assert vSendMsg[it..][0] == vSendMsg[it];
      assert |vSendMsg[it]| > nSendOffset;
      var offered := |vSendMsg[it]| - nSendOffset;
      whole := false;
      if answer <= 0 { return 0, false; }
      nBytes := Least(answer, offered);
      if nBytes < offered {
        TakePart(it, nBytes);
      } else {
        TakeAll(it);
        whole := true;
      }
    }

    // Offer the buffers one by one; `it` of them are taken whole.
    method OfferAll(taken: seq<int>) returns (nSentSize: nat, it: nat)
      requires Valid()
      modifies this`nSendSize, this`nSendOffset, this`nSendBytes, this`fPauseSend, this`wire
      ensures it <= |vSendMsg| && ValidFrom(it) && old(wire) <= wire && |wire| == |old(wire)| + nSentSize
      ensures Drained(vSendMsg, old(nSendOffset), taken, it, vSendMsg[it..], nSendOffset)
      ensures nSentSize == AnswersCut(vSendMsg, old(nSendOffset), taken, if it < |vSendMsg| then it + 1 else it)
      ensures vSendMsg != [] && taken != [] && taken[0] > 0 ==> nSentSize > 0
    {
      nSentSize, it := 0, 0;
      while it < |vSendMsg|
        invariant it <= |vSendMsg| && ValidFrom(it) && old(wire) <= wire && |wire| == |old(wire)| + nSentSize
        invariant TakenWhole(vSendMsg, old(nSendOffset), taken, it, nSendOffset, nSentSize)
      {
        var nBytes, whole := OfferNext(it, if it < |taken| then taken[it] else 0);
        TakenNext(vSendMsg, old(nSendOffset), taken, it, nSentSize, nBytes);
        nSentSize := nSentSize + nBytes;
        if !whole { return; }
        it := it + 1;
      }
    }

    /**
     Offer queued data to the socket until it does not take all of a buffer. `taken` is what the
     socket answers to each call: how much it would accept, zero or less if nothing.
     */
    method SocketSendData(taken: seq<int>) returns (nSentSize: nat, ghost k: nat)
      requires Valid()
      modifies this`vSendMsg, this`nSendSize, this`nSendOffset, this`nSendBytes, this`fPauseSend, this`wire
      ensures Valid() && old(wire) <= wire && |wire| == |old(wire)| + nSentSize
      ensures Drained(old(vSendMsg), old(nSendOffset), taken, k, vSendMsg, nSendOffset)
      ensures var calls := if k < |old(vSendMsg)| then k + 1 else k;
              nSentSize == AnswersCut(old(vSendMsg), old(nSendOffset), taken, calls)
      ensures old(vSendMsg) != [] && taken != [] && taken[0] > 0 ==> nSentSize > 0
      ensures Covers(taken, old(vSendMsg)) ==> vSendMsg == []
    {
      var it;
      nSentSize, it := OfferAll(taken);
      assert it == |vSendMsg| ==> nSendOffset == 0 && nSendSize == 0;
      k := it;
      Erase(it);
    }

    method Erase(it: nat)
      requires it <= |vSendMsg| && ValidFrom(it)
      modifies this`vSendMsg
      ensures Valid() && vSendMsg == old(vSendMsg)[it..]
    {
      assert vSendMsg[it..][0..] == vSendMsg[it..];
      vSendMsg := vSendMsg[it..];
    }

    method Enqueue(m: Message)
      requires Valid()
      modifies this`vSendMsg, this`nSendSize, this`fPauseSend, this`pushed
      ensures Valid() && pushed == old(pushed) + [m] && vSendMsg == old(vSendMsg) + Buffers(net, m)
    {
      var bufs := [EncodeHeader(HeaderOf(net, m))];
      if |m.data| > 0 { bufs := bufs + [m.data]; }
      assert vSendMsg[0..] == vSendMsg && (vSendMsg + bufs)[0..] == vSendMsg + bufs;
      PushStreamed(net, pushed, m, wire, vSendMsg, nSendOffset);
      nSendSize := nSendSize + |m.data| + HEADER_SIZE;
      if nSendSize > nSendBufferMaxSize { fPauseSend := true; }
      vSendMsg := vSendMsg + bufs;
      pushed := pushed + [m];
    }

    /** Queue a message behind the others; an empty queue is offered to the socket at once. */
    method PushMessage(m: Message, taken: seq<int>) returns (nBytesSent: nat, ghost k: nat)
      requires Valid()
      modifies this`vSendMsg, this`nSendSize, this`nSendOffset, this`nSendBytes, this`fPauseSend, this`wire, this`pushed
      ensures Valid() && pushed == old(pushed) + [m]
      ensures old(wire) <= wire && |wire| == |old(wire)| + nBytesSent
      ensures old(vSendMsg) != [] ==> vSendMsg == old(vSendMsg) + Buffers(net, m) && nBytesSent == 0
      ensures old(vSendMsg) == [] ==> Drained(Buffers(net, m), 0, taken, k, vSendMsg, nSendOffset)
      ensures old(vSendMsg) == [] && taken != [] && taken[0] > 0 ==> nBytesSent > 0
    {
      var optimisticSend := vSendMsg == [];
      Enqueue(m);
      nBytesSent, k := 0, 0;
      if optimisticSend { nBytesSent, k := SocketSendData(taken); }
    }
  }

  function Least(a: int, b: int): int { if a < b then a else b }

  function Max(a: int, b: int): int { if a < b then b else a }

  /** The bytes out and the bytes queued, but for the sent part of the first buffer, make up the stream. */
  ghost predicate Streamed(wire: seq<Byte>, bufs: seq<seq<Byte>>, offset: nat, stream: seq<Byte>) {
    offset <= |Flat(bufs)| && stream == wire + Flat(bufs)[offset..]
  }

  lemma StreamedMore(wire: seq<Byte>, bufs: seq<seq<Byte>>, offset: nat, n: nat, stream: seq<Byte>)
    requires bufs != [] && offset + n <= |bufs[0]| && Streamed(wire, bufs, offset, stream)
    ensures Streamed(wire + bufs[0][offset..offset + n], bufs, offset + n, stream)
    ensures offset + n == |bufs[0]| ==> Streamed(wire + bufs[0][offset..offset + n], bufs[1..], 0, stream)
  {
    var f := Flat(bufs);
    assert f[offset..] == bufs[0][offset..offset + n] + f[offset + n..];
    assert offset + n == |bufs[0]| ==> f[offset + n..] == Flat(bufs[1..])[0..];
  }

  /** The size is the sum over the buffers, and only the first may be sent in part. */
  ghost predicate Queued(bufs: seq<seq<Byte>>, size: int, offset: nat, wire: seq<Byte>, stream: seq<Byte>) {
    && size == TotalSize(bufs) && (if bufs == [] then offset == 0 else offset < |bufs[0]|)
    && Streamed(wire, bufs, offset, stream)
  }

  lemma QueuedLess(bufs: seq<seq<Byte>>, size: int, offset: nat, wire: seq<Byte>, stream: seq<Byte>, n: nat)
    requires bufs != [] && NonEmptyAll(bufs) && Queued(bufs, size, offset, wire, stream) && 0 < n <= |bufs[0]| - offset
    ensures var wire' := wire + bufs[0][offset..offset + n];
            if offset + n == |bufs[0]| then Queued(bufs[1..], size - |bufs[0]|, 0, wire', stream)
            else Queued(bufs, size, offset + n, wire', stream)
  {
    StreamedMore(wire, bufs, offset, n, stream);
  }

  lemma StreamedAppend(wire: seq<Byte>, bufs: seq<seq<Byte>>, offset: nat, stream: seq<Byte>, b: seq<Byte>)
    requires Streamed(wire, bufs, offset, stream)
    ensures Streamed(wire, bufs + [b], offset, stream + b) && TotalSize(bufs + [b]) == TotalSize(bufs) + |b|
  {
    FlatAppend(bufs, b);
    assert (Flat(bufs) + b)[offset..] == Flat(bufs)[offset..] + b;
  }

  /** The buffers of a message: its header, and its payload unless that is empty. */
  function Buffers(net: Network, m: Message): seq<seq<Byte>> {
    var header := EncodeHeader(HeaderOf(net, m));
    if m.data == [] then [header] else [header] + [m.data]
  }

  lemma PushStreamed(net: Network, pushed: seq<Message>, m: Message, wire: seq<Byte>, bufs: seq<seq<Byte>>, offset: nat)
    requires net.Valid() && Streamed(wire, bufs, offset, EncodeAll(net, pushed))
    ensures var bufs' := bufs + Buffers(net, m);
            && Streamed(wire, bufs', offset, EncodeAll(net, pushed + [m]))
            && TotalSize(bufs') == TotalSize(bufs) + HEADER_SIZE + |m.data|
    ensures NonEmptyAll(Buffers(net, m))
  {
    var header, stream := EncodeHeader(HeaderOf(net, m)), EncodeAll(net, pushed);
    assert |header| == HEADER_SIZE;
    EncodeAllAppend(net, pushed, m);
    StreamedAppend(wire, bufs, offset, stream, header);
    Regrouped(stream, header, m.data);
    if m.data != [] {
      StreamedAppend(wire, bufs + [header], offset, stream + header, m.data);
      Regrouped(bufs, [header], [m.data]);
    }
  }

  lemma Regrouped<T>(a: seq<T>, b: seq<T>, c: seq<T>)
    ensures a + (b + c) == a + b + c && (c == [] ==> a + (b + c) == a + b)
  {
  }
}
