/**
 Receiving P2P messages (src/net.h, src/net.cpp): the parser reads the stream in arbitrary pieces and
 always holds exactly the frames of what it was given.
 */
module NetReceive {
  import opened WireSpec

  /** A message being received. */
  datatype NetMessage = NetMessage(inData: bool, hdrbuf: seq<Byte>, nHdrPos: nat, hdr: Header, vRecv: seq<Byte>,
                                   nDataPos: nat)
  {
    predicate Complete() { inData && hdr.size == nDataPos }

    predicate Ok() {
      && |hdrbuf| == HEADER_SIZE
      && if inData
         then nHdrPos == HEADER_SIZE && hdr == DecodeHeader(hdrbuf) && hdr.size <= MAX_PROTOCOL_MESSAGE_LENGTH &&
              nDataPos <= |vRecv| <= hdr.size && |vRecv| <= nDataPos + 262144
         else nHdrPos < HEADER_SIZE && nDataPos == 0 && vRecv == []
    }

    /** The bytes of the message so far. */
    function Received(): seq<Byte>
      requires nHdrPos <= |hdrbuf| && nDataPos <= |vRecv|
    {
      hdrbuf[..nHdrPos] + vRecv[..nDataPos]
    }
  }

  function Zeros(n: nat): (s: seq<Byte>)
    ensures |s| == n
  {
    seq(n, _ => 0)
  }

  function NewMessage(start: seq<Byte>): (m: NetMessage)
    ensures m.Ok() && m.Received() == []
  {
    NetMessage(false, Zeros(HEADER_SIZE), 0, Header(start, Zeros(COMMAND_SIZE), 0xFFFF_FFFF, Zeros(4)), [], 0)
  }

  function Min(a: nat, b: nat): nat { if a < b then a else b }

  // Overwrite part of a buffer.
  function Copied(buf: seq<Byte>, pos: nat, x: seq<Byte>): (r: seq<Byte>)
    requires pos + |x| <= |buf|
    ensures |r| == |buf| && r[..pos + |x|] == buf[..pos] + x
  {
    buf[..pos] + x + buf[pos + |x|..]
  }

  function Resized(buf: seq<Byte>, n: nat): (r: seq<Byte>)
    ensures |r| == n && (n >= |buf| ==> r[..|buf|] == buf)
  {
    if n <= |buf| then buf[..n] else buf + Zeros(n - |buf|)
  }

  // ---- One message ----

  /** Take header bytes; a complete header with an excessive size is refused with a negative count. */
  method ReadHeader(m: NetMessage, pch: seq<Byte>) returns (m': NetMessage, handled: int)
    requires m.Ok() && !m.inData && pch != []
    ensures var q := m.Received() + pch;
            if |q| >= HEADER_SIZE && Announced(q) > MAX_SIZE then handled < 0
            else
              && 0 < handled <= |pch| && m'.nHdrPos <= |m'.hdrbuf| && m'.nDataPos <= |m'.vRecv|
              && m'.Received() == m.Received() + pch[..handled]
              && (m'.inData <==> |m'.Received()| == HEADER_SIZE)
              && (m'.inData ==> m'.hdr.size == Announced(q) && (m'.hdr.size <= MAX_PROTOCOL_MESSAGE_LENGTH ==> m'.Ok()))
              && (!m'.inData ==> m'.Ok() && handled == |pch|)
  {
    var nCopy := Min(HEADER_SIZE - m.nHdrPos, |pch|);
    m' := m.(hdrbuf := Copied(m.hdrbuf, m.nHdrPos, pch[..nCopy]), nHdrPos := m.nHdrPos + nCopy);
    assert m'.Received() == m.Received() + pch[..nCopy];
    if m'.nHdrPos < HEADER_SIZE { return m', nCopy; }
    assert (m.Received() + pch)[..HEADER_SIZE] == m'.hdrbuf;
    m' := m'.(hdr := DecodeHeader(m'.hdrbuf));
    if m'.hdr.size > MAX_SIZE { return m', -1; }
    m' := m'.(inData := true);
    return m', nCopy;
  }

  // Room for the next bytes: up to 256 KiB ahead, but never more than the whole message.
  method MakeRoom(vRecv: seq<Byte>, pos: nat, n: nat, size: nat) returns (r: seq<Byte>)
    requires pos <= |vRecv| <= size && pos + n <= size
    ensures pos + n <= |r| <= size && r[..pos] == vRecv[..pos]
    ensures |r| == |vRecv| || |r| <= pos + n + 262144
  {
    r := vRecv;
    if |r| < pos + n {
      r := Resized(r, Min(size, pos + n + 256 * 1024));
      assert r[..pos] == r[..|vRecv|][..pos];
    }
  }

  /** Take payload bytes. */
  method ReadData(m: NetMessage, pch: seq<Byte>) returns (m': NetMessage, handled: nat)
    requires m.Ok() && m.inData && !m.Complete() && pch != []
    ensures m'.Ok() && m'.inData && m'.hdrbuf == m.hdrbuf && 0 < handled <= |pch|
    ensures m'.Received() == m.Received() + pch[..handled] && (handled < |pch| ==> m'.Complete())
  {
    handled := Min(m.hdr.size - m.nDataPos, |pch|);
    var room := MakeRoom(m.vRecv, m.nDataPos, handled, m.hdr.size);
    m' := m.(vRecv := Copied(room, m.nDataPos, pch[..handled]), nDataPos := m.nDataPos + handled);
    assert m'.vRecv[..m'.nDataPos] == m.vRecv[..m.nDataPos] + pch[..handled];
  }

  // ---- The queue of received messages ----

  predicate AllComplete(v: seq<NetMessage>) { forall i :: 0 <= i < |v| ==> v[i].Ok() && v[i].Complete() }

  function FramesIn(v: seq<NetMessage>): (fs: seq<Frame>)
    ensures |fs| == |v| && forall i :: 0 <= i < |v| ==> fs[i] == Frame(v[i].hdrbuf, v[i].vRecv)
  {
    seq(|v|, i requires 0 <= i < |v| => Frame(v[i].hdrbuf, v[i].vRecv))
  }

  /** The bytes of complete messages, headers included. */
  function BytesIn(v: seq<NetMessage>): nat {
    if v == [] then 0 else BytesIn(v[..|v| - 1]) + HEADER_SIZE + |v[|v| - 1].vRecv|
  }

  // Whether the last message is still incomplete.
  predicate Open(v: seq<NetMessage>) { v != [] && !v[|v| - 1].Complete() }

  function Finished(v: seq<NetMessage>): seq<NetMessage> { if Open(v) then v[..|v| - 1] else v }

  function Pending(v: seq<NetMessage>): seq<Byte>
    requires Open(v) ==> v[|v| - 1].Ok()
  {
    if Open(v) then v[|v| - 1].Received() else []
  }

  /** The queue holds the frames of a stream from some frame on, and what is left over. */
  ghost predicate Holds(v: seq<NetMessage>, before: seq<Frame>, stream: seq<Byte>) {
    && AllComplete(Finished(v)) && (Open(v) ==> v[|v| - 1].Ok())
    && before + FramesIn(Finished(v)) == Frames(stream) && Pending(v) == Rest(stream) && !Oversized(stream)
  }

  // ---- One piece more ----

  /** A stream cut within its first frame. */
  lemma PartOfFrame(q: seq<Byte>)
    requires |q| < HEADER_SIZE || (Announced(q) <= MAX_PROTOCOL_MESSAGE_LENGTH && |q| < HEADER_SIZE + Announced(q))
    ensures Frames(q) == [] && Rest(q) == q && !Oversized(q)
  {
  }

  /** A stream of one frame. */
  lemma OneFrame(q: seq<Byte>)
    requires |q| >= HEADER_SIZE && Announced(q) <= MAX_PROTOCOL_MESSAGE_LENGTH && |q| == HEADER_SIZE + Announced(q)
    ensures Frames(q) == [Frame(q[..HEADER_SIZE], q[HEADER_SIZE..])] && Rest(q) == [] && !Oversized(q)
  {
    assert AfterFirst(q) == [] && q[HEADER_SIZE..HEADER_SIZE + Announced(q)] == q[HEADER_SIZE..];
    PartOfFrame([]);
    assert Frames(q) == [FirstFrame(q)] + Frames(AfterFirst(q));
  }

  /** What a message in progress says of its bytes. */
  lemma OfMessage(m: NetMessage)
    requires m.Ok()
    ensures var q := m.Received();
            && !Oversized(q)
            && (if m.Complete() then Frames(q) == [Frame(m.hdrbuf, m.vRecv)] && Rest(q) == []
                else Frames(q) == [] && Rest(q) == q)
  {
    var q := m.Received();
    if m.inData { assert q[..HEADER_SIZE] == m.hdrbuf && q[HEADER_SIZE..] == m.vRecv[..m.nDataPos]; }
    if m.Complete() {
      OneFrame(q);
      assert m.vRecv[..m.nDataPos] == m.vRecv;
    } else {
      PartOfFrame(q);
    }
  }

  /** Replacing the open message by a longer one extends the stream. */
  lemma HoldsMore(v: seq<NetMessage>, before: seq<Frame>, stream: seq<Byte>, m: NetMessage, x: seq<Byte>)
    requires Holds(v, before, stream) && m.Ok() && m.Received() == Pending(v) + x
    ensures Holds(Finished(v) + [m], before, stream + x)
    ensures m.Complete() <==> |Frames(stream + x)| > |Frames(stream)|
  {
    StreamAppend(stream, x);
    OfMessage(m);
    LastOf(Finished(v), m);
    if m.Complete() {
      Regroup(before, FramesIn(Finished(v)), [Frame(m.hdrbuf, m.vRecv)]);
    } else {
      assert Frames(stream) + [] == Frames(stream);
    }
  }

  // A queue of complete messages with one more message.
  lemma LastOf(done: seq<NetMessage>, m: NetMessage)
    requires AllComplete(done)
    ensures var v := done + [m];
            && v[|v| - 1] == m && Finished(v) == (if m.Complete() then v else done)
            && FramesIn(v) == FramesIn(done) + [Frame(m.hdrbuf, m.vRecv)]
  {
    var v := done + [m];
    assert v[..|v| - 1] == done;
  }

  lemma PieceTaken(seen: seq<Byte>, rest: seq<Byte>, n: nat)
    requires n <= |rest|
    ensures (seen + rest[..n]) + rest[n..] == seen + rest && |Frames(seen + rest[..n])| >= |Frames(seen)|
  {
    assert rest[..n] + rest[n..] == rest;
    StreamAppend(seen, rest[..n]);
  }

  lemma FirstOpen(v: seq<NetMessage>, it: nat)
    requires AllComplete(Finished(v)) && it <= |v|
    requires (forall i :: 0 <= i < it ==> v[i].Complete()) && (it < |v| ==> !v[it].Complete())
    ensures v[..it] == Finished(v) && v[it..] == (if Open(v) then [v[|v| - 1]] else [])
  {
    assert forall i :: 0 <= i < |v| - 1 ==> Finished(v)[i] == v[i];
  }

  lemma FramesInConcat(a: seq<NetMessage>, b: seq<NetMessage>)
    ensures FramesIn(a + b) == FramesIn(a) + FramesIn(b)
  {
  }

  lemma Regroup(a: seq<Frame>, b: seq<Frame>, c: seq<Frame>)
    ensures a + (b + c) + [] == a + b + c && a + (b + c) == a + b + c
  {
  }

  lemma MoveHolds(v: seq<NetMessage>, proc: seq<NetMessage>, handedOn: seq<Frame>, stream: seq<Byte>,
                  done: seq<NetMessage>, open: seq<NetMessage>)
    requires Holds(v, handedOn + FramesIn(proc), stream) && done == Finished(v) &&
             open == (if Open(v) then [v[|v| - 1]] else [])
    ensures Holds(open, handedOn + FramesIn(proc + done), stream)
  {
    FramesInConcat(proc, done);
    assert Finished(open) == [];
    assert FramesIn(Finished(open)) == [];
    Regroup(handedOn, FramesIn(proc), FramesIn(done));
  }

  lemma PopHolds(v: seq<NetMessage>, proc: seq<NetMessage>, handedOn: seq<Frame>, stream: seq<Byte>)
    requires AllComplete(proc) && proc != [] && Holds(v, handedOn + FramesIn(proc), stream)
    ensures AllComplete(proc[1..]) &&
            Holds(v, handedOn + [Frame(proc[0].hdrbuf, proc[0].vRecv)] + FramesIn(proc[1..]), stream)
  {
    var f, rest := [Frame(proc[0].hdrbuf, proc[0].vRecv)], FramesIn(proc[1..]);
    FramesInConcat([proc[0]], proc[1..]);
    assert proc == [proc[0]] + proc[1..] && FramesIn([proc[0]]) == f;
    Regroup(handedOn, f, rest);
  }

  class Receiver {
    const start: seq<Byte>
    var vRecvMsg: seq<NetMessage>
    var vProcessMsg: seq<NetMessage>
    /** All bytes received so far. */
    var received: seq<Byte>
    ghost var handedOn: seq<Frame>

    ghost predicate Valid()
      reads this
    {
      AllComplete(vProcessMsg) && Holds(vRecvMsg, handedOn + FramesIn(vProcessMsg), received)
    }

    constructor (startBytes: seq<Byte>)
      ensures Valid() && start == startBytes && received == [] && vRecvMsg == [] && vProcessMsg == []
    {
      start := startBytes;
      vRecvMsg, vProcessMsg, received, handedOn := [], [], [], [];
    }

    // The message in progress, or a new one.
    method Current() returns (m: NetMessage)
      requires Valid()
      ensures m.Ok() && !m.Complete() && m.Received() == Pending(vRecvMsg)
    {
      if vRecvMsg == [] || vRecvMsg[|vRecvMsg| - 1].Complete() {
        m := NewMessage(start);
      } else {
        m := vRecvMsg[|vRecvMsg| - 1];
      }
    }

    // Store the message in progress back.
    method Update(m: NetMessage, x: seq<Byte>)
      requires Valid() && m.Ok() && m.Received() == Pending(vRecvMsg) + x
      modifies this`vRecvMsg, this`received
      ensures Valid() && received == old(received) + x
      ensures m.Complete() <==> |Frames(received)| > |Frames(old(received))|
    {
      HoldsMore(vRecvMsg, handedOn + FramesIn(vProcessMsg), received, m, x);
      received := received + x;
      vRecvMsg := Finished(vRecvMsg) + [m];
    }

    // Absorb some bytes into the current message.
    method Absorb(pch: seq<Byte>) returns (handled: int, complete: bool)
      requires Valid() && pch != []
      modifies this`vRecvMsg, this`received
      ensures handled < 0 ==> Oversized(old(received) + pch)
      ensures handled >= 0 ==> 0 < handled <= |pch| && Valid() && received == old(received) + pch[..handled]
      ensures handled >= 0 ==> (complete <==> |Frames(received)| > |Frames(old(received))|)
    {
      var msg := Current();
      complete := false;
      if !msg.inData {
        TooLong(received, msg, pch);
        msg, handled := ReadHeader(msg, pch);
      } else {
        msg, handled := ReadData(msg, pch);
      }
      if handled < 0 { return; }
      if msg.inData && msg.hdr.size > MAX_PROTOCOL_MESSAGE_LENGTH { return -1, false; }
      Update(msg, pch[..handled]);
      complete := msg.Complete();
    }

    /** Parse received bytes; the peer is to be disconnected just when a header announces too much. */
    method ReceiveMsgBytes(pch: seq<Byte>) returns (ok: bool, complete: bool)
      requires Valid()
      modifies this`vRecvMsg, this`received
      ensures ok <==> !Oversized(old(received) + pch)
      ensures ok ==> Valid() && received == old(received) + pch
      ensures ok ==> (complete <==> |Frames(received)| > |Frames(old(received))|)
    {
      complete := false;
      var rest := pch;
      while rest != []
        invariant Valid() && received + rest == old(received) + pch
        invariant |Frames(received)| >= |Frames(old(received))| &&
                  (complete <==> |Frames(received)| > |Frames(old(received))|)
        decreases |rest|
      {
        ghost var seen := received;
        var handled, finished := Absorb(rest);
        if handled < 0 { return false, complete; }
        PieceTaken(seen, rest, handled);
        rest := rest[handled..];
        complete := complete || finished;
      }
      assert received + [] == received;
      ok := true;
    }

    // The number and size of the complete messages at the front.
    method CountComplete() returns (it: nat, nSizeAdded: nat)
      ensures it <= |vRecvMsg| && (forall i :: 0 <= i < it ==> vRecvMsg[i].Complete())
      ensures (it < |vRecvMsg| ==> !vRecvMsg[it].Complete()) && nSizeAdded == BytesIn(vRecvMsg[..it])
    {
      nSizeAdded, it := 0, 0;
      while it < |vRecvMsg| && vRecvMsg[it].Complete()
        invariant it <= |vRecvMsg| && forall i :: 0 <= i < it ==> vRecvMsg[i].Complete()
        invariant nSizeAdded == BytesIn(vRecvMsg[..it])
      {
        assert vRecvMsg[..it + 1][..it] == vRecvMsg[..it];
        nSizeAdded := nSizeAdded + |vRecvMsg[it].vRecv| + HEADER_SIZE;
        it := it + 1;
      }
    }

    /** Queue the complete messages for processing. */
    method MoveComplete() returns (nSizeAdded: nat)
      requires Valid()
      modifies this`vRecvMsg, this`vProcessMsg
      ensures Valid() && vProcessMsg == old(vProcessMsg) + Finished(old(vRecvMsg)) && |vRecvMsg| <= 1
      ensures vRecvMsg == if Open(old(vRecvMsg)) then [old(vRecvMsg)[|old(vRecvMsg)| - 1]] else []
      ensures nSizeAdded == BytesIn(Finished(old(vRecvMsg)))
    {
      var it;
      it, nSizeAdded := CountComplete();
      FirstOpen(vRecvMsg, it);
      MoveHolds(vRecvMsg, vProcessMsg, handedOn, received, vRecvMsg[..it], vRecvMsg[it..]);
      vProcessMsg, vRecvMsg := vProcessMsg + vRecvMsg[..it], vRecvMsg[it..];
    }

    /** Hand on the oldest complete message. */
    method PopMessage() returns (m: NetMessage)
      requires Valid() && vProcessMsg != []
      modifies this`vProcessMsg, this`handedOn
      ensures Valid() && m.Ok() && m.Complete() && handedOn == old(handedOn) + [Frame(m.hdrbuf, m.vRecv)]
    {
      m := vProcessMsg[0];
      PopHolds(vRecvMsg, vProcessMsg, handedOn, received);
      handedOn, vProcessMsg := handedOn + [Frame(m.hdrbuf, m.vRecv)], vProcessMsg[1..];
    }
  }

  lemma TooLong(stream: seq<Byte>, m: NetMessage, pch: seq<Byte>)
    requires m.Ok() && m.Received() == Rest(stream)
    ensures var q := m.Received() + pch;
            |q| >= HEADER_SIZE && Announced(q) > MAX_PROTOCOL_MESSAGE_LENGTH ==> Oversized(stream + pch)
  {
    StreamAppend(stream, pch);
  }
}
