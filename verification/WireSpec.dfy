/**
 The P2P message format (src/protocol.h, src/protocol.cpp) and what a byte stream says, independent
 of how it is cut into reads.
 */
module WireSpec {

  type Byte = b: int | 0 <= b < 256

  const HEADER_SIZE := 24
  const COMMAND_SIZE := 12
  const MAX_SIZE := 0x0200_0000
  const MAX_PROTOCOL_MESSAGE_LENGTH := 4_000_000

  datatype Message = Message(command: seq<Byte>, data: seq<Byte>)

  /** Messages a node sends: a short command without zero bytes and a payload within the limit. */
  predicate Sendable(m: Message) {
    && |m.command| <= COMMAND_SIZE && (forall i :: 0 <= i < |m.command| ==> m.command[i] != 0)
    && |m.data| <= MAX_PROTOCOL_MESSAGE_LENGTH
  }

  /** What both ends agree on: the network's start bytes and the payload checksum. */
  datatype Network = Network(start: seq<Byte>, checksum: seq<Byte> -> seq<Byte>)
  {
    ghost predicate Valid() { |start| == 4 && forall d :: |checksum(d)| == 4 }
  }

  // ---- Headers ----

  datatype Header = Header(start: seq<Byte>, command: seq<Byte>, size: nat, checksum: seq<Byte>)

  function EncodeSize(n: nat): (b: seq<Byte>)
    ensures |b| == 4
  {
    [n % 0x100, n / 0x100 % 0x100, n / 0x1_0000 % 0x100, n / 0x100_0000 % 0x100]
  }

  function DecodeSize(b: seq<Byte>): nat
    requires |b| == 4
  {
    b[0] as int + 0x100 * (b[1] as int) + 0x1_0000 * (b[2] as int) + 0x100_0000 * (b[3] as int)
  }

  lemma SizeRoundTrip(n: nat)
    requires n < 0x1_0000_0000
    ensures DecodeSize(EncodeSize(n)) == n
  {
    var q1, q2, q3 := n / 0x100, n / 0x1_0000, n / 0x100_0000;
    assert n == n % 0x100 + 0x100 * q1;
    assert q1 == q1 % 0x100 + 0x100 * q2;
    assert q2 == q2 % 0x100 + 0x100 * q3;
    assert q3 % 0x100 == q3;
  }

  // A command as a fixed-size field, cut or filled up with zeros.
  function Padded(command: seq<Byte>): (b: seq<Byte>)
    ensures |b| == COMMAND_SIZE
  {
    seq(COMMAND_SIZE, i requires 0 <= i < COMMAND_SIZE => if i < |command| then command[i] else 0)
  }

  // The bytes before the first zero.
  function Unpadded(b: seq<Byte>): (c: seq<Byte>)
    ensures |c| <= |b|
  {
    if b == [] || b[0] == 0 then [] else [b[0]] + Unpadded(b[1..])
  }

  lemma {:induction false} UnpaddedUpTo(b: seq<Byte>, n: nat)
    requires n <= |b| && (forall i :: 0 <= i < n ==> b[i] != 0) && (n < |b| ==> b[n] == 0)
    ensures Unpadded(b) == b[..n]
  {
    if n > 0 { UnpaddedUpTo(b[1..], n - 1); }
  }

  lemma CommandRoundTrip(command: seq<Byte>)
    requires |command| <= COMMAND_SIZE && forall i :: 0 <= i < |command| ==> command[i] != 0
    ensures Unpadded(Padded(command)) == command
  {
    UnpaddedUpTo(Padded(command), |command|);
  }

  function HeaderOf(net: Network, m: Message): Header {
    Header(net.start, Padded(m.command), |m.data|, net.checksum(m.data))
  }

  /** The serialized header, without the field widths that Decode relies on. */
  function EncodeHeader(h: Header): seq<Byte> { h.start + h.command + EncodeSize(h.size) + h.checksum }

  function DecodeHeader(b: seq<Byte>): Header
    requires |b| == HEADER_SIZE
  {
    Header(b[..4], b[4..16], DecodeSize(b[16..20]), b[20..])
  }

  lemma HeaderRoundTrip(h: Header)
    requires |h.start| == 4 && |h.command| == COMMAND_SIZE && h.size < 0x1_0000_0000 && |h.checksum| == 4
    ensures |EncodeHeader(h)| == HEADER_SIZE && DecodeHeader(EncodeHeader(h)) == h
    ensures var b := EncodeHeader(h);
            && b[..4] == h.start && b[4..16] == h.command && b[20..24] == h.checksum
            && b[16] as int + 256 * (b[17] as int) + 65536 * (b[18] as int) + 16777216 * (b[19] as int) == h.size
  {
    var b := EncodeHeader(h);
    assert b[..4] == h.start && b[4..16] == h.command && b[16..20] == EncodeSize(h.size) && b[20..] == h.checksum;
    SizeRoundTrip(h.size);
  }

  // ---- Streams ----

  /** The bytes of a message. */
  function Encode(net: Network, m: Message): seq<Byte> { EncodeHeader(HeaderOf(net, m)) + m.data }

  function EncodeAll(net: Network, ms: seq<Message>): seq<Byte> {
    if ms == [] then [] else Encode(net, ms[0]) + EncodeAll(net, ms[1..])
  }

  lemma {:induction false} EncodeAllAppend(net: Network, ms: seq<Message>, m: Message)
    ensures EncodeAll(net, ms + [m]) == EncodeAll(net, ms) + Encode(net, m)
  {
    if ms == [] {
      assert ms + [m] == [m] && EncodeAll(net, [m][1..]) == [];
    } else {
      assert (ms + [m])[1..] == ms[1..] + [m];
      EncodeAllAppend(net, ms[1..], m);
    }
  }

  /** A received header and its payload. */
  datatype Frame = Frame(header: seq<Byte>, data: seq<Byte>)

  // The length a stream's first frame announces.
  function Announced(s: seq<Byte>): nat
    requires |s| >= HEADER_SIZE
  {
    DecodeHeader(s[..HEADER_SIZE]).size
  }

  predicate Whole(s: seq<Byte>) { |s| >= HEADER_SIZE && |s| >= HEADER_SIZE + Announced(s) }

  function FirstFrame(s: seq<Byte>): Frame
    requires Whole(s)
  {
    Frame(s[..HEADER_SIZE], s[HEADER_SIZE..HEADER_SIZE + Announced(s)])
  }

  function AfterFirst(s: seq<Byte>): (r: seq<Byte>)
    requires Whole(s)
    ensures |r| < |s|
  {
    s[HEADER_SIZE + Announced(s)..]
  }

  /** The complete frames of a stream. */
  function Frames(s: seq<Byte>): seq<Frame>
    decreases |s|
  {
    if Whole(s) then [FirstFrame(s)] + Frames(AfterFirst(s)) else []
  }

  /** What follows the last complete frame. */
  function Rest(s: seq<Byte>): (r: seq<Byte>)
    ensures !Whole(r)
    decreases |s|
  {
    if Whole(s) then Rest(AfterFirst(s)) else s
  }

  /** Some header of the stream announces too much. */
  predicate Oversized(s: seq<Byte>)
    decreases |s|
  {
    |s| >= HEADER_SIZE && (Announced(s) > MAX_PROTOCOL_MESSAGE_LENGTH || (Whole(s) && Oversized(AfterFirst(s))))
  }

  lemma FirstOfLonger(s: seq<Byte>, x: seq<Byte>)
    requires |s| >= HEADER_SIZE
    ensures Announced(s + x) == Announced(s)
    ensures Whole(s) ==> Whole(s + x) && FirstFrame(s + x) == FirstFrame(s) && AfterFirst(s + x) == AfterFirst(s) + x
  {
    assert (s + x)[..HEADER_SIZE] == s[..HEADER_SIZE];
  }

  /** More bytes only matter together with what is left over. */
  lemma {:induction false} StreamAppend(s: seq<Byte>, x: seq<Byte>)
    ensures Frames(s + x) == Frames(s) + Frames(Rest(s) + x) && Rest(s + x) == Rest(Rest(s) + x)
    ensures Oversized(s + x) <==> Oversized(s) || Oversized(Rest(s) + x)
    decreases |s|
  {
    if |s| >= HEADER_SIZE { FirstOfLonger(s, x); }
    if Whole(s) {
      StreamAppend(AfterFirst(s), x);
    }
  }

  // ---- Frames of messages ----

  function FrameOf(net: Network, m: Message): Frame { Frame(EncodeHeader(HeaderOf(net, m)), m.data) }

  function FramesOf(net: Network, ms: seq<Message>): (fs: seq<Frame>)
    ensures |fs| == |ms| && forall i :: 0 <= i < |ms| ==> fs[i] == FrameOf(net, ms[i])
  {
    seq(|ms|, i requires 0 <= i < |ms| => FrameOf(net, ms[i]))
  }

  /** The message a frame carries. */
  function MessageOf(f: Frame): Message
    requires |f.header| == HEADER_SIZE
  {
    Message(Unpadded(DecodeHeader(f.header).command), f.data)
  }

  lemma FrameCarries(net: Network, m: Message)
    requires net.Valid() && Sendable(m)
    ensures |FrameOf(net, m).header| == HEADER_SIZE && MessageOf(FrameOf(net, m)) == m
  {
    HeaderRoundTrip(HeaderOf(net, m));
    CommandRoundTrip(m.command);
  }

  lemma EncodedIsWhole(net: Network, m: Message, x: seq<Byte>)
    requires net.Valid() && Sendable(m)
    ensures var s := Encode(net, m) + x;
            Whole(s) && FirstFrame(s) == FrameOf(net, m) && AfterFirst(s) == x &&
              Announced(s) <= MAX_PROTOCOL_MESSAGE_LENGTH
  {
    var h := HeaderOf(net, m);
    HeaderRoundTrip(h);
    var s := Encode(net, m) + x;
    assert s[..HEADER_SIZE] == EncodeHeader(h);
  }

  /** What is sent is read back: exactly the messages, nothing left over, nothing too large. */
  lemma {:induction false} StreamOfMessages(net: Network, ms: seq<Message>)
    requires net.Valid() && forall i :: 0 <= i < |ms| ==> Sendable(ms[i])
    ensures Frames(EncodeAll(net, ms)) == FramesOf(net, ms) && Rest(EncodeAll(net, ms)) == [] &&
            !Oversized(EncodeAll(net, ms))
  {
    if ms != [] {
      EncodedIsWhole(net, ms[0], EncodeAll(net, ms[1..]));
      StreamOfMessages(net, ms[1..]);
    }
  }

  /** Any prefix of a sent stream reads back as a prefix of the messages. */
  lemma PrefixOfMessages(net: Network, ms: seq<Message>, s: seq<Byte>)
    requires net.Valid() && (forall i :: 0 <= i < |ms| ==> Sendable(ms[i])) && s <= EncodeAll(net, ms)
    ensures |Frames(s)| <= |ms| && !Oversized(s)
    ensures forall i :: 0 <= i < |Frames(s)| ==>
            |Frames(s)[i].header| == HEADER_SIZE && MessageOf(Frames(s)[i]) == ms[i]
  {
    var t := EncodeAll(net, ms);
    StreamOfMessages(net, ms);
    assert t == s + t[|s|..];
    StreamAppend(s, t[|s|..]);
    forall i | 0 <= i < |Frames(s)| ensures |Frames(s)[i].header| == HEADER_SIZE && MessageOf(Frames(s)[i]) == ms[i] {
      assert Frames(s)[i] == Frames(t)[i] == FrameOf(net, ms[i]);
      FrameCarries(net, ms[i]);
    }
  }
}
