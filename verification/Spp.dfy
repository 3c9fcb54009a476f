/** The serial port over RFCOMM: segmentation into frames, the frame decoder and
    the bounded receive buffer. */
module Spp {
  import opened Integers
  import opened RfcommFcs

  const SABM: uint8 := 0x2F
  const UIH: uint8 := 0xEF
  const UA: uint8 := 0x63
  const DISC: uint8 := 0x43
  const PN_CMD: uint8 := 0x83
  const PN_RSP: uint8 := 0x81
  const MSC_CMD: uint8 := 0xE3
  const MSC_RSP: uint8 := 0xE1
  const RPN_CMD: uint8 := 0x93
  const RPN_RSP: uint8 := 0x91
  const CAPACITY: nat := 100
  const MAX_PAYLOAD: nat := 60

  // ----- frames and packets

  datatype Link = Link(handle: uint16, cidLow: uint8, cidHigh: uint8)

  /** An L2CAP packet as L2CAP_Command lays it out. */
  function Packet(link: Link, data: seq<uint8>): seq<uint8>
    requires |data| <= 255
  {
    [link.handle % 0x100, link.handle / 0x100 % 0x10 + 0x20, (|data| + 4) % 0x100, (|data| + 4) / 0x100,
     |data|, 0, link.cidLow, link.cidHigh] + data
  }

  /** A frame with a one-byte length field. */
  function Frame(address: uint8, control: uint8, payload: seq<uint8>): (r: seq<uint8>)
    requires |payload| <= 127
    ensures |r| == |payload| + 4
  {
    hide Fcs;
    var length := 2 * |payload| + 1;
    [address, control, length] + payload + [Fcs(address, control, length)]
  }

  /** A UIH frame with its P/F bit set carries a credit byte before the payload. */
  function CreditFrame(address: uint8, control: uint8, credit: uint8, payload: seq<uint8>): (r: seq<uint8>)
    requires |payload| <= 127
    ensures |r| == |payload| + 5
  {
    hide Fcs;
    var length := 2 * |payload| + 1;
    [address, control, length, credit] + payload + [Fcs(address, control, length)]
  }

  function ChannelType(control: uint8): uint8 {
    if control / 0x10 % 2 == 1 then control - 0x10 else control
  }

  /** Payload length of the frame in a packet, and the bytes before it that the
      L2CAP length leaves over. */
  function Length(m: seq<uint8>): nat
    requires |m| > 10
  {
    m[10] / 2
  }

  function Offset(m: seq<uint8>): uint8
    requires |m| > 10
  {
    (m[4] - Length(m) - 4) % 0x100
  }

  /** What the decoder takes out of a packet. */
  function Payload(m: seq<uint8>): (r: seq<uint8>)
    requires |m| > 10 && |m| > 11 + Length(m) + Offset(m)
    ensures |r| <= Length(m)
  {
    hide FcsOk;
    var at := 11 + Offset(m);
    if FcsOk(m[8], m[9], m[10], m[at + Length(m)]) then m[at..at + Length(m)] else []
  }

  lemma FrameLayout(link: Link, frame: seq<uint8>, payload: seq<uint8>, rest: seq<uint8>, extra: nat)
    requires |payload| <= 127 && extra <= 1 && |frame| == |payload| + 4 + extra && frame[2] == 2 * |payload| + 1
    requires frame[|frame| - 1] == Fcs(frame[0], frame[1], frame[2]) && frame[3 + extra..|frame| - 1] == payload
    ensures var m := Packet(link, frame) + rest;
      Offset(m) == extra && Length(m) == |payload| && |m| > 11 + Length(m) + Offset(m) && Payload(m) == payload
  {
    hide Fcs, FcsOk;
    var m := Packet(link, frame) + rest;
    assert m[4] == |frame| && forall i | 0 <= i < |frame| :: m[8 + i] == frame[i];
    assert m[8] == frame[0] && m[9] == frame[1] && m[10] == frame[2];
    assert m[8 + (|frame| - 1)] == frame[|frame| - 1];
    forall i | 0 <= i < |payload|
      ensures m[11 + extra + i] == payload[i]
    {
      assert m[8 + (3 + extra + i)] == frame[3 + extra + i];
    }
    assert m[11 + extra..11 + extra + |payload|] == payload;
    FcsOkExactlyFcs(m[8], m[9], m[10], frame[|frame| - 1]);
  }

  /** Decoding undoes framing, with and without a credit byte, whatever lies
      behind the packet in memory. */
  lemma DecodeFrame(link: Link, address: uint8, control: uint8, credit: uint8, payload: seq<uint8>, rest: seq<uint8>)
    requires |payload| <= 127
    ensures var m := Packet(link, Frame(address, control, payload)) + rest;
      |m| > 11 + Length(m) + Offset(m) && Payload(m) == payload
    ensures var m := Packet(link, CreditFrame(address, control, credit, payload)) + rest;
      |m| > 11 + Length(m) + Offset(m) && Payload(m) == payload
  {
    hide Packet, Payload, Length, Offset, Fcs;
    FrameLayout(link, Frame(address, control, payload), payload, rest, 0);
    FrameLayout(link, CreditFrame(address, control, credit, payload), payload, rest, 1);
  }

  /** A frame whose last byte is not its FCS yields nothing. */
  lemma WrongFcsIsDropped(m: seq<uint8>)
    requires |m| > 10 && |m| > 11 + Length(m) + Offset(m)
    requires m[11 + Offset(m) + Length(m)] != Fcs(m[8], m[9], m[10])
    ensures Payload(m) == []
  {
    FcsOkExactlyFcs(m[8], m[9], m[10], m[11 + Offset(m) + Length(m)]);
  }

  // ----- the port as a value

  /** A packet given to the dongle, by send or by anything else. */
  datatype Sent = Serial(packet: seq<uint8>) | Control(packet: seq<uint8>)

  /** `channel` is rfcommChannelConnection, `bytesRead` the bytes read since the
      last credit. */
  datatype Port = Port(link: Link, connected: bool, channel: uint8, direction: uint8,
                       pending: seq<uint8>, sent: seq<Sent>, buffered: seq<uint8>, bytesRead: nat,
                       creditSent: bool, waiting: bool)

  ghost predicate Sound(s: Port) {
    && s.channel % 8 == 0 && (s.direction == 0 || s.direction == 4)
    && |s.pending| <= CAPACITY && |s.buffered| <= CAPACITY && s.bytesRead <= CAPACITY - 5
  }

  /** The pending bytes in segments of at most 60, each a packet. */
  function Segments(link: Link, address: uint8, bytes: seq<uint8>): seq<Sent> {
    if bytes == [] then []
    else
      var n := if |bytes| > MAX_PAYLOAD then MAX_PAYLOAD else |bytes|;
      [Serial(Packet(link, Frame(address, UIH, bytes[..n])))] + Segments(link, address, bytes[n..])
  }

  function Flushed(s: Port): Port
    requires s.channel % 8 == 0
  {
    if s.connected then s.(sent := s.sent + Segments(s.link, s.channel + 1, s.pending), pending := []) else s
  }

  function Put(s: Port, b: uint8): Port
    requires s.channel % 8 == 0
  {
    var room := if |s.pending| >= CAPACITY then Flushed(s) else s;
    room.(pending := room.pending + [b])
  }

  function Written(s: Port, data: seq<uint8>): (r: Port)
    requires s.channel % 8 == 0
    ensures r.channel == s.channel && r.connected == s.connected
  {
    if data == [] then s else Put(Written(s, data[..|data| - 1]), data[|data| - 1])
  }

  /** Drop-tail: what does not fit is lost. */
  function Kept(buffered: seq<uint8>, payload: seq<uint8>): seq<uint8>
    requires |buffered| <= CAPACITY
  {
    if |buffered| + |payload| <= CAPACITY then payload else payload[..CAPACITY - |buffered|]
  }

  function CreditPacket(s: Port): (r: Sent)
    requires Sound(s)
    ensures r.Control?
  {
    Control(Packet(s.link, CreditFrame(s.channel + s.direction + 1, 0xFF, CAPACITY, [])))
  }

  /** The port after read, and the byte it returns, -1 for none. */
  function ReadOne(s: Port): (r: (Port, int))
    requires Sound(s)
    ensures -1 <= r.1 < 0x100 && (r.1 == -1 <==> s.buffered == [])
  {
    hide CreditPacket;
    if s.buffered == [] then (s, -1 as int)
    else
      var next := s.(buffered := s.buffered[1..], bytesRead := s.bytesRead + 1);
      var b: int := s.buffered[0];
      (if next.bytesRead > CAPACITY - 5 then next.(bytesRead := 0, sent := s.sent + [CreditPacket(s)]) else next, b)
  }

  /** The header fields, whatever the frame is. */
  function Addressed(s: Port, m: seq<uint8>): Port
    requires |m| > 10
  {
    var channel := m[8] / 8 * 8;
    s.(direction := m[8] / 4 % 2 * 4, channel := if channel != 0 then channel else s.channel)
  }

  /** Whether an incoming frame's payload goes to the buffer. */
  predicate IsData(s: Port, m: seq<uint8>)
    requires |m| > 10
  {
    s.connected && ChannelType(m[9]) == UIH && m[8] / 8 * 8 == Addressed(s, m).channel
  }

  /** A frame on any channel but 0 becomes the connection's own channel. */
  lemma ChannelKeptExactlyWhen(s: Port, m: seq<uint8>)
    requires |m| >= REACH && Sound(s)
    ensures Received(s, m).channel == s.channel <==> m[8] / 8 == 0 || m[8] / 8 * 8 == s.channel
  {
    hide Payload, Reply, Acknowledgement, CreditPacket;
  }

  /** So a UIH frame's payload is taken on a connection whatever channel the
      frame is on, except on channel 0 of a connection that has another. */
  lemma PayloadTakenExactlyWhen(s: Port, m: seq<uint8>)
    requires |m| >= REACH && Sound(s)
    ensures IsData(s, m) <==> s.connected && ChannelType(m[9]) == UIH && (m[8] / 8 != 0 || s.channel == 0)
    ensures Received(s, m).buffered == s.buffered + if IsData(s, m) then Kept(s.buffered, Payload(m)) else []
  {
    hide Payload, Reply, Acknowledgement, CreditPacket;
    assert s.buffered + [] == s.buffered;
  }

  /** A frame for channel 2 of a connection on channel 1 is taken like one of its
      own, and the connection is on channel 2 from then on. */
  lemma ForeignFrameIsTaken(s: Port, m: seq<uint8>)
    requires |m| >= REACH && Sound(s) && s.connected && s.channel == 8 && m[8] == 0x11 && m[9] == UIH
    ensures Received(s, m).buffered == s.buffered + Kept(s.buffered, Payload(m)) && Received(s, m).channel == 16
  {
    hide Payload;
  }

  /** Memory from the start of l2capinbuf on, far enough for any index the
      decoder can form. */
  const REACH: nat := 11 + 127 + 255 + 1

  function PfBit(m: seq<uint8>): uint8
    requires |m| > 10
  {
    m[9] / 0x10 % 2 * 0x10
  }

  /** The answer to an unnumbered command: its own address, and UA. */
  function Acknowledgement(s: Port, m: seq<uint8>): (r: Sent)
    requires |m| > 10
    ensures r.Control?
  {
    Control(Packet(s.link, Frame(m[8] / 2 * 2 + 1, UA + PfBit(m), [])))
  }

  /** A multiplexer message back on the channel and direction it came on. */
  function Reply(s: Port, m: seq<uint8>, payload: seq<uint8>): (r: Sent)
    requires |m| > 10 && |payload| <= 10
    ensures r.Control?
  {
    Control(Packet(s.link, Frame(m[8] / 4 * 4 + 1, UIH + PfBit(m), payload)))
  }

  function PortNegotiationReply(m: seq<uint8>): seq<uint8>
    requires |m| >= REACH
  {
    [RPN_RSP] + m[12..21]
  }

  /** Accepts the parameters offered, with frames of 50 bytes. */
  function ParameterReply(m: seq<uint8>): seq<uint8>
    requires |m| >= REACH
  {
    [PN_RSP, m[12], m[13], 0xE0, 0, 0, 50, 0, 0, 0]
  }

  function ModemStatusReply(m: seq<uint8>): seq<uint8>
    requires |m| >= REACH
  {
    [MSC_RSP, 5, m[13], m[14]]
  }

  function ModemStatusCommand(m: seq<uint8>): seq<uint8>
    requires |m| >= REACH
  {
    [MSC_CMD, 5, m[13], 0x8D]
  }

  /** The connection is there: what was written before it is dropped. */
  function Established(s: Port): Port {
    s.(waiting := false, creditSent := false, connected := true, pending := [])
  }

  /** The multiplexer commands, before and after the connection is there. */
  function Multiplexed(a: Port, m: seq<uint8>): Port
    requires |m| >= REACH && Sound(a)
  {
    var uih := ChannelType(m[9]) == UIH;
    if a.connected then
      if uih && m[11] == RPN_CMD then a.(sent := a.sent + [Reply(a, m, PortNegotiationReply(m))])
      else if uih && m[11] == MSC_CMD then a.(sent := a.sent + [Reply(a, m, ModemStatusReply(m))])
      else a
    else
      if ChannelType(m[9]) == SABM then a.(sent := a.sent + [Acknowledgement(a, m)])
      else if uih && m[11] == PN_CMD then a.(sent := a.sent + [Reply(a, m, ParameterReply(m))])
      else if uih && m[11] == MSC_CMD then
        a.(sent := a.sent + [Reply(a, m, ModemStatusReply(m)), Reply(a, m, ModemStatusCommand(m))])
      else if uih && m[11] == MSC_RSP then
        if a.creditSent then a else a.(sent := a.sent + [CreditPacket(a)], creditSent := true, waiting := true)
      else if uih && m[10] == 0x01 then a
      else if uih && m[11] == RPN_CMD then Established(a.(sent := a.sent + [Reply(a, m, PortNegotiationReply(m))]))
      else a
  }

  function Received(s: Port, m: seq<uint8>): (r: Port)
    requires |m| >= REACH && Sound(s)
    ensures s.buffered <= r.buffered
  {
    var a := Addressed(s, m);
    if ChannelType(m[9]) == DISC then a.(connected := false, sent := s.sent + [Acknowledgement(a, m)])
    else if IsData(s, m) then a.(buffered := s.buffered + Kept(s.buffered, Payload(m)))
    else Multiplexed(a, m)
  }

  /** Run: some devices never negotiate the port, so after 100 ms the connection
      is taken to be there; then everything pending is sent. */
  function Serviced(s: Port, elapsed: bool): Port
    requires Sound(s)
  {
    Flushed(if s.waiting && elapsed then Established(s) else s)
  }

  // ----- runs

  /** What the decoder takes from a packet of send. */
  function DataOf(p: Sent): seq<uint8> {
    if p.Serial? && |p.packet| > 10 && |p.packet| > 11 + Length(p.packet) + Offset(p.packet) then Payload(p.packet) else []
  }

  function Wire(packets: seq<Sent>): seq<uint8>
    decreases |packets|
  {
    if packets == [] then [] else Wire(packets[..|packets| - 1]) + DataOf(packets[|packets| - 1])
  }

  lemma {:induction false} WireAppend(a: seq<Sent>, b: seq<Sent>)
    ensures Wire(a + b) == Wire(a) + Wire(b)
    decreases |b|
  {
    hide DataOf;
    if b == [] {
      assert a + b == a;
    } else {
      var n := |b| - 1;
      WireAppend(a, b[..n]);
      assert (a + b)[..|a + b| - 1] == a + b[..n] && (a + b)[|a + b| - 1] == b[n];
      assert (Wire(a) + Wire(b[..n])) + DataOf(b[n]) == Wire(a) + (Wire(b[..n]) + DataOf(b[n]));
    }
  }

  lemma WireOne(packet: Sent)
    ensures Wire([packet]) == DataOf(packet)
  {
    hide DataOf;
    assert [packet][..0] == [];
  }

  lemma DataOfFrame(link: Link, address: uint8, payload: seq<uint8>)
    requires |payload| <= 127
    ensures DataOf(Serial(Packet(link, Frame(address, UIH, payload)))) == payload
  {
    hide Payload, Length, Offset, Fcs;
    DecodeFrame(link, address, UIH, 0, payload, []);
    var p := Packet(link, Frame(address, UIH, payload));
    assert p + [] == p;
  }

  lemma ControlCarriesNothing(sent: seq<Sent>, p: Sent)
    requires p.Control?
    ensures Wire(sent + [p]) == Wire(sent)
  {
    hide Wire;
    WireAppend(sent, [p]);
    WireOne(p);
  }

  /** Segmentation loses, adds and reorders nothing, and every segment carries
      between 1 and 60 bytes. */
  lemma {:induction false} SegmentsCarryAll(link: Link, address: uint8, bytes: seq<uint8>)
    ensures Wire(Segments(link, address, bytes)) == bytes
    ensures forall p | p in Segments(link, address, bytes) :: p.Serial? && 1 <= |DataOf(p)| <= MAX_PAYLOAD && |p.packet| == 12 + |DataOf(p)|
    decreases |bytes|
  {
    hide DataOf, Fcs, Payload;
    if bytes != [] {
      var n := if |bytes| > MAX_PAYLOAD then MAX_PAYLOAD else |bytes|;
      var first := Serial(Packet(link, Frame(address, UIH, bytes[..n])));
      SegmentsCarryAll(link, address, bytes[n..]);
      WireAppend([first], Segments(link, address, bytes[n..]));
      WireOne(first);
      DataOfFrame(link, address, bytes[..n]);
      assert bytes[..n] + bytes[n..] == bytes;
    }
  }

  lemma FlushConserves(s: Port)
    requires s.channel % 8 == 0
    ensures Wire(Flushed(s).sent) + Flushed(s).pending == Wire(s.sent) + s.pending
    ensures s.connected ==> Flushed(s).pending == []
  {
    hide Segments, Wire;
    SegmentsCarryAll(s.link, s.channel + 1, s.pending);
    WireAppend(s.sent, Segments(s.link, s.channel + 1, s.pending));
  }

  /** write does not overrun its buffer: it is connected, or there is room. */
  predicate Writable(s: Port, data: seq<uint8>) {
    |data| <= 255 && (s.connected || |s.pending| + |data| <= CAPACITY)
  }

  lemma {:induction false} WriteConserves(s: Port, data: seq<uint8>)
    requires Sound(s) && (s.connected || |s.pending| + |data| <= CAPACITY)
    ensures var r := Written(s, data);
      && Wire(r.sent) + r.pending == Wire(s.sent) + s.pending + data
      && Sound(r) && (!s.connected ==> |r.pending| == |s.pending| + |data|)
      && r == s.(sent := r.sent, pending := r.pending)
    decreases |data|
  {
    hide Wire, Segments;
    if data != [] {
      var n := |data| - 1;
      WriteConserves(s, data[..n]);
      var before := Written(s, data[..n]);
      FlushConserves(before);
      var room := if |before.pending| >= CAPACITY then Flushed(before) else before;
      calc {
        Wire(room.sent) + (room.pending + [data[n]]);
        (Wire(room.sent) + room.pending) + [data[n]];
        (Wire(s.sent) + s.pending + data[..n]) + [data[n]];
        { assert data[..n] + [data[n]] == data; }
        Wire(s.sent) + s.pending + data;
      }
    } else {
      assert Wire(s.sent) + s.pending + data == Wire(s.sent) + s.pending;
    }
  }

  lemma {:induction false} DisconnectedWriteOnlyAdds(s: Port, data: seq<uint8>)
    requires s.channel % 8 == 0 && !s.connected
    ensures |Written(s, data).pending| == |s.pending| + |data|
    decreases |data|
  {
    if data != [] {
      DisconnectedWriteOnlyAdds(s, data[..|data| - 1]);
    }
  }

  /** write keeps within its buffer exactly when it is connected or has room:
      without a connection send empties nothing. */
  lemma WriteStaysInBufferExactlyWhen(s: Port, data: seq<uint8>)
    requires Sound(s)
    ensures |Written(s, data).pending| <= CAPACITY <==> s.connected || |s.pending| + |data| <= CAPACITY
  {
    hide Written;
    if s.connected || |s.pending| + |data| <= CAPACITY {
      WriteConserves(s, data);
    } else {
      DisconnectedWriteOnlyAdds(s, data);
    }
  }

  datatype Op = Write(data: seq<uint8>) | Send | Read | Receive(memory: seq<uint8>) | Service(elapsed: bool)

  /** A port with its history: the bytes written and which of them are gone, the
      bytes accepted from frames and those returned by read, the credit renewals
      of read, and the peer's side of the credit since it was last granted: what
      it holds, the renewals before the grant, and the payload bytes it sent that
      were not taken. */
  datatype History = History(port: Port, written: seq<uint8>, gone: seq<bool>, accepted: seq<uint8>, returned: seq<uint8>,
                             renewals: nat, grants: nat, credit: int, earlier: nat, refused: nat)

  predicate Allowed(s: Port, op: Op) {
    match op
    case Write(data) => Writable(s, data)
    case Receive(memory) => |memory| >= REACH
    case _ => true
  }

  /** Whether an operation brings the connection: the port is negotiated, or the
      wait for that is over. */
  predicate Connects(s: Port, op: Op)
    requires Allowed(s, op)
  {
    match op
    case Receive(m) => !s.connected && ChannelType(m[9]) == UIH && m[11] == RPN_CMD && m[10] != 0x01
    case Service(elapsed) => s.waiting && elapsed
    case _ => false
  }

  /** What is pending when the connection comes is gone. */
  function Gone(h: History, op: Op): seq<bool>
    requires Allowed(h.port, op)
  {
    var n, p := |h.gone|, |h.port.pending|;
    if Connects(h.port, op) && p <= n then h.gone[..n - p] + seq(p, _ => true) else h.gone
  }

  /** A frame that costs the peer a credit: UIH with a payload, on any channel
      but the multiplexer's. */
  predicate Spends(s: Port, m: seq<uint8>)
    requires |m| > 10
  {
    ChannelType(m[9]) == UIH && (m[8] / 8 != 0 || IsData(s, m)) && Length(m) > 0
  }

  /** The command that makes the port send the first credit. */
  predicate Grants(s: Port, m: seq<uint8>)
    requires |m| > 11
  {
    !s.connected && ChannelType(m[9]) == UIH && m[11] == MSC_RSP && !s.creditSent
  }

  /** The credit a packet gives the peer: a UIH frame with its P/F bit set and
      no payload, whose check byte is right. */
  function CreditOf(p: Sent): nat {
    var m := p.packet;
    if |m| == 13 && m[4] == 5 && m[9] == 0xFF && m[10] == 1 && FcsOk(m[8], m[9], m[10], m[12]) then m[11] else 0
  }

  function CreditsIn(packets: seq<Sent>): nat {
    if packets == [] then 0 else CreditsIn(packets[..|packets| - 1]) + CreditOf(packets[|packets| - 1])
  }

  /** An operation with its history; the peer gets the credit that the packets
      sent in it carry. */
  function Step(h: History, op: Op): History
    requires Sound(h.port) && Allowed(h.port, op)
  {
    hide Act;
    var after := Act(h, op);
    after.(credit := after.credit + CreditsIn(after.port.sent) - CreditsIn(h.port.sent))
  }

  function Act(h: History, op: Op): History
    requires Sound(h.port) && Allowed(h.port, op)
  {
    hide Payload, CreditPacket, Received, Serviced, Written, Flushed;
    var now := h.(gone := Gone(h, op));
    match op
    case Write(data) =>
      now.(port := Written(h.port, data), written := h.written + data, gone := h.gone + seq(|data|, _ => false))
    case Send => now.(port := Flushed(h.port))
    case Read =>
      var (next, b) := ReadOne(h.port);
      var renewals := |next.sent| - |h.port.sent|;
      now.(port := next,
           returned := if b < 0 then h.returned else h.returned + [b],
           renewals := h.renewals + renewals)
    case Receive(m) =>
      var taken := if IsData(h.port, m) then Kept(h.port.buffered, Payload(m)) else [];
      var after := now.(port := Received(h.port, m), accepted := h.accepted + taken);
      if Grants(h.port, m) then
        after.(grants := h.grants + 1, credit := 0, earlier := h.renewals, refused := 0)
      else if Spends(h.port, m) then
        after.(credit := h.credit - 1, refused := h.refused + Length(m) - |taken|)
      else after
    case Service(elapsed) => now.(port := Serviced(h.port, elapsed))
  }

  /** The bytes written that are not gone, in order. */
  function Surviving(written: seq<uint8>, gone: seq<bool>): seq<uint8>
    requires |written| == |gone|
  {
    if written == [] then []
    else
      var n := |written| - 1;
      Surviving(written[..n], gone[..n]) + if gone[n] then [] else [written[n]]
  }

  lemma {:induction false} SurvivingAppend(a: seq<uint8>, aGone: seq<bool>, b: seq<uint8>, bGone: seq<bool>)
    requires |a| == |aGone| && |b| == |bGone|
    ensures Surviving(a + b, aGone + bGone) == Surviving(a, aGone) + Surviving(b, bGone)
    decreases |b|
  {
    if b == [] {
      assert a + b == a && aGone + bGone == aGone;
    } else {
      var n := |b| - 1;
      SurvivingAppend(a, aGone, b[..n], bGone[..n]);
      assert (a + b)[..|a + b| - 1] == a + b[..n] && (aGone + bGone)[..|a + b| - 1] == aGone + bGone[..n];
    }
  }

  lemma {:induction false} SurvivingUniform(b: seq<uint8>, gone: seq<bool>, dead: bool)
    requires |b| == |gone| && forall k | 0 <= k < |b| :: gone[k] == dead
    ensures Surviving(b, gone) == if dead then [] else b
    decreases |b|
  {
    if b != [] {
      SurvivingUniform(b[..|b| - 1], gone[..|b| - 1], dead);
    }
  }

  /** What is pending are the last bytes written, and they are not gone. */
  ghost predicate PendingIsLast(h: History) {
    var n, p := |h.written|, |h.port.pending|;
    && |h.gone| == n && p <= n && h.written[n - p..] == h.port.pending
    && forall k | n - p <= k < n :: !h.gone[k]
  }

  ghost predicate CreditBounded(h: History) {
    && h.earlier <= h.renewals
    && (h.grants > 0 ==>
          h.credit + h.port.bytesRead + |h.port.buffered| + h.refused >= CAPACITY + 4 * (h.renewals - h.earlier))
  }

  /** What every run keeps of the data. */
  ghost predicate DataKept(h: History) {
    && Sound(h.port)
    && PendingIsLast(h)
    && Wire(h.port.sent) + h.port.pending == Surviving(h.written, h.gone)
    && h.returned + h.port.buffered == h.accepted
    && |h.returned| == (CAPACITY - 4) * h.renewals + h.port.bytesRead
  }

  /** What every run keeps: the data, and the credit sent and left. */
  ghost predicate Conserves(h: History) {
    && DataKept(h)
    && CreditsIn(h.port.sent) == CAPACITY * (h.grants + h.renewals)
    && CreditBounded(h)
  }

  // ----- the credit in packets

  lemma {:induction false} CreditsAppend(a: seq<Sent>, b: seq<Sent>)
    ensures CreditsIn(a + b) == CreditsIn(a) + CreditsIn(b)
    decreases |b|
  {
    hide CreditOf;
    if b == [] {
      assert a + b == a;
    } else {
      var n := |b| - 1;
      CreditsAppend(a, b[..n]);
      assert (a + b)[..|a + b| - 1] == a + b[..n] && (a + b)[|a + b| - 1] == b[n];
    }
  }

  lemma CreditsOneMore(sent: seq<Sent>, p: Sent)
    ensures CreditsIn(sent + [p]) == CreditsIn(sent) + CreditOf(p)
  {
    hide CreditOf;
    assert (sent + [p])[..|sent|] == sent;
  }

  /** Only a credit frame carries credit. */
  lemma FrameCredit(link: Link, address: uint8, control: uint8, payload: seq<uint8>, p: Sent)
    requires |payload| <= 127 && p.packet == Packet(link, Frame(address, control, payload))
    requires control != 0xFF || payload != []
    ensures CreditOf(p) == 0
  {
    hide Fcs, FcsOk;
    assert p.packet[9] == Frame(address, control, payload)[1];
  }

  lemma CreditPacketCredit(s: Port)
    requires Sound(s)
    ensures CreditOf(CreditPacket(s)) == CAPACITY
    ensures CreditPacket(s).packet[8] / 8 * 8 == s.channel
  {
    hide Fcs, FcsOk;
    var frame := CreditFrame(s.channel + s.direction + 1, 0xFF, CAPACITY, []);
    var m := CreditPacket(s).packet;
    assert forall i | 0 <= i < |frame| :: m[8 + i] == frame[i];
    assert m[8] == frame[0] && m[9] == frame[1] && m[10] == frame[2] && m[11] == frame[3] && m[12] == frame[4];
    FcsOkExactlyFcs(m[8], m[9], m[10], m[12]);
  }

  lemma ReplyCredit(s: Port, m: seq<uint8>, payload: seq<uint8>)
    requires |m| > 10 && 0 < |payload| <= 10
    ensures CreditOf(Reply(s, m, payload)) == 0
  {
    hide Fcs, FcsOk, CreditOf;
    FrameCredit(s.link, m[8] / 4 * 4 + 1, UIH + PfBit(m), payload, Reply(s, m, payload));
  }

  lemma AcknowledgementCredit(s: Port, m: seq<uint8>)
    requires |m| > 10
    ensures CreditOf(Acknowledgement(s, m)) == 0
  {
    hide Fcs, FcsOk, CreditOf;
    FrameCredit(s.link, m[8] / 2 * 2 + 1, UA + PfBit(m), [], Acknowledgement(s, m));
  }

  lemma {:induction false} SegmentsCredit(link: Link, address: uint8, bytes: seq<uint8>)
    ensures CreditsIn(Segments(link, address, bytes)) == 0
    decreases |bytes|
  {
    hide Fcs, FcsOk, CreditOf;
    if bytes != [] {
      var n := if |bytes| > MAX_PAYLOAD then MAX_PAYLOAD else |bytes|;
      var first := Serial(Packet(link, Frame(address, UIH, bytes[..n])));
      SegmentsCredit(link, address, bytes[n..]);
      CreditsAppend([first], Segments(link, address, bytes[n..]));
      FrameCredit(link, address, UIH, bytes[..n], first);
      assert [first][..0] == [];
    }
  }

  lemma FlushedCredit(s: Port)
    requires s.channel % 8 == 0
    ensures CreditsIn(Flushed(s).sent) == CreditsIn(s.sent)
  {
    hide CreditsIn, Segments;
    SegmentsCredit(s.link, s.channel + 1, s.pending);
    CreditsAppend(s.sent, Segments(s.link, s.channel + 1, s.pending));
  }

  lemma {:induction false} WrittenCredit(s: Port, data: seq<uint8>)
    requires s.channel % 8 == 0
    ensures CreditsIn(Written(s, data).sent) == CreditsIn(s.sent)
    decreases |data|
  {
    hide CreditsIn, Flushed;
    if data != [] {
      WrittenCredit(s, data[..|data| - 1]);
      FlushedCredit(Written(s, data[..|data| - 1]));
    }
  }

  lemma MultiplexedCredit(a: Port, m: seq<uint8>)
    requires |m| >= REACH && Sound(a)
    ensures CreditsIn(Multiplexed(a, m).sent) == CreditsIn(a.sent) + if Grants(a, m) then CAPACITY else 0
  {
    hide CreditsIn, CreditOf, Reply, Acknowledgement, CreditPacket;
    ReplyCredit(a, m, PortNegotiationReply(m));
    ReplyCredit(a, m, ModemStatusReply(m));
    ReplyCredit(a, m, ModemStatusCommand(m));
    ReplyCredit(a, m, ParameterReply(m));
    AcknowledgementCredit(a, m);
    CreditPacketCredit(a);
    CreditsOneMore(a.sent, Reply(a, m, PortNegotiationReply(m)));
    CreditsOneMore(a.sent, Reply(a, m, ModemStatusReply(m)));
    CreditsOneMore(a.sent, Reply(a, m, ParameterReply(m)));
    CreditsOneMore(a.sent, Acknowledgement(a, m));
    CreditsOneMore(a.sent, CreditPacket(a));
    var one := a.sent + [Reply(a, m, ModemStatusReply(m))];
    CreditsOneMore(one, Reply(a, m, ModemStatusCommand(m)));
    assert one + [Reply(a, m, ModemStatusCommand(m))]
        == a.sent + [Reply(a, m, ModemStatusReply(m)), Reply(a, m, ModemStatusCommand(m))];
  }

  lemma ReceivedCredit(s: Port, m: seq<uint8>)
    requires |m| >= REACH && Sound(s)
    ensures CreditsIn(Received(s, m).sent) == CreditsIn(s.sent) + if Grants(s, m) then CAPACITY else 0
  {
    hide CreditsIn, CreditOf, Payload, Acknowledgement, Multiplexed;
    var a := Addressed(s, m);
    AddressedKeeps(s, m);
    MultiplexedCredit(a, m);
    AcknowledgementCredit(a, m);
    CreditsOneMore(s.sent, Acknowledgement(a, m));
  }

  lemma ReadCredit(s: Port)
    requires Sound(s)
    ensures var next := ReadOne(s).0;
      CreditsIn(next.sent) == CreditsIn(s.sent) + CAPACITY * (|next.sent| - |s.sent|)
  {
    hide CreditsIn, CreditOf, CreditPacket;
    CreditPacketCredit(s);
    CreditsOneMore(s.sent, CreditPacket(s));
  }

  /** The packets of one operation carry 100 for a grant and for a renewal, and
      no other credit. */
  lemma ActCredit(h: History, op: Op)
    requires Sound(h.port) && Allowed(h.port, op)
    ensures var r := Act(h, op);
      CreditsIn(r.port.sent) == CreditsIn(h.port.sent) + CAPACITY * ((r.grants + r.renewals) - (h.grants + h.renewals))
  {
    hide CreditsIn, Payload, Received, Serviced, Written, Flushed, ReadOne, Kept, Grants, Spends, IsData;
    match op
    case Write(data) => WrittenCredit(h.port, data);
    case Send => FlushedCredit(h.port);
    case Read => ReadCredit(h.port);
    case Receive(m) => ReceivedCredit(h.port, m);
    case Service(elapsed) => ServicedCredit(h.port, elapsed);
  }

  lemma ServicedCredit(s: Port, elapsed: bool)
    requires Sound(s)
    ensures CreditsIn(Serviced(s, elapsed).sent) == CreditsIn(s.sent)
  {
    hide CreditsIn, Flushed;
    FlushedCredit(s);
    FlushedCredit(Established(s));
  }

  // ----- conservation

  /** Without what is pending, what survives is on the wire. */
  lemma WireIsSurviving(h: History)
    requires DataKept(h)
    ensures var k := |h.written| - |h.port.pending|;
      Wire(h.port.sent) == Surviving(h.written[..k], h.gone[..k])
  {
    hide Wire, Surviving;
    var k := |h.written| - |h.port.pending|;
    assert h.written[..k] + h.written[k..] == h.written && h.gone[..k] + h.gone[k..] == h.gone;
    SurvivingAppend(h.written[..k], h.gone[..k], h.written[k..], h.gone[k..]);
    SurvivingUniform(h.written[k..], h.gone[k..], false);
    var wire, rest := Wire(h.port.sent), Surviving(h.written[..k], h.gone[..k]);
    assert wire + h.port.pending == rest + h.port.pending;
    assert |wire| == |rest|;
    assert wire == (wire + h.port.pending)[..|wire|] == (rest + h.port.pending)[..|rest|] == rest;
  }

  /** The connection makes exactly what is pending disappear. */
  lemma ConnectingConserves(h: History, op: Op, s: Port)
    requires DataKept(h) && Allowed(h.port, op) && Connects(h.port, op)
    requires s.pending == [] && Wire(s.sent) == Wire(h.port.sent)
    ensures var now := h.(gone := Gone(h, op), port := s);
      PendingIsLast(now) && Wire(s.sent) + s.pending == Surviving(now.written, now.gone)
  {
    hide Wire, Surviving;
    var k := |h.written| - |h.port.pending|;
    var tail := seq(|h.port.pending|, _ => true);
    WireIsSurviving(h);
    assert h.written[..k] + h.written[k..] == h.written;
    SurvivingAppend(h.written[..k], h.gone[..k], h.written[k..], tail);
    SurvivingUniform(h.written[k..], tail, true);
    assert Wire(s.sent) + [] == Wire(s.sent);
    assert Surviving(h.written[..k], h.gone[..k]) + [] == Surviving(h.written[..k], h.gone[..k]);
  }

  lemma ReadConserves(h: History)
    requires DataKept(h)
    ensures DataKept(Act(h, Read))
  {
    hide Wire, CreditPacket, Surviving;
    var s := h.port;
    if s.buffered != [] {
      var first := [s.buffered[0]];
      assert (h.returned + first) + s.buffered[1..] == h.returned + (first + s.buffered[1..]);
      assert first + s.buffered[1..] == s.buffered;
      CreditCarriesNothing(s);
    }
  }

  lemma CreditCarriesNothing(s: Port)
    requires Sound(s)
    ensures Wire(s.sent + [CreditPacket(s)]) == Wire(s.sent)
  {
    hide Wire, Packet, CreditFrame;
    ControlCarriesNothing(s.sent, CreditPacket(s));
  }

  /** A command leaves the data alone, unless it brings the connection, which
      drops what is pending. */
  lemma MultiplexedKeeps(a: Port, m: seq<uint8>)
    requires |m| >= REACH && Sound(a)
    ensures var r := Multiplexed(a, m);
      && Sound(r) && Wire(r.sent) == Wire(a.sent)
      && r.buffered == a.buffered && r.bytesRead == a.bytesRead
      && r.pending == (if !a.connected && r.connected then [] else a.pending)
  {
    hide Wire, Reply, Acknowledgement, CreditPacket;
    ControlCarriesNothing(a.sent, Reply(a, m, PortNegotiationReply(m)));
    ControlCarriesNothing(a.sent, Reply(a, m, ModemStatusReply(m)));
    ControlCarriesNothing(a.sent, Reply(a, m, ParameterReply(m)));
    ControlCarriesNothing(a.sent, Acknowledgement(a, m));
    CreditCarriesNothing(a);
    var one := a.sent + [Reply(a, m, ModemStatusReply(m))];
    ControlCarriesNothing(one, Reply(a, m, ModemStatusCommand(m)));
    assert one + [Reply(a, m, ModemStatusCommand(m))]
        == a.sent + [Reply(a, m, ModemStatusReply(m)), Reply(a, m, ModemStatusCommand(m))];
  }

  lemma AddressedKeeps(s: Port, m: seq<uint8>)
    requires Sound(s) && |m| > 10
    ensures Sound(Addressed(s, m))
  {
  }

  /** A frame adds its payload to the buffer and leaves the rest of the data
      alone, unless it brings the connection. */
  lemma ReceivedKeeps(s: Port, m: seq<uint8>)
    requires |m| >= REACH && Sound(s)
    ensures var r := Received(s, m);
      && Sound(r) && Wire(r.sent) == Wire(s.sent) && r.bytesRead == s.bytesRead
      && r.buffered == s.buffered + (if IsData(s, m) then Kept(s.buffered, Payload(m)) else [])
      && r.pending == if Connects(s, Receive(m)) then [] else s.pending
  {
    hide Wire, Payload, Acknowledgement, Multiplexed;
    var a := Addressed(s, m);
    AddressedKeeps(s, m);
    MultiplexedKeeps(a, m);
    MultiplexedConnects(a, m);
    ControlCarriesNothing(s.sent, Acknowledgement(a, m));
    assert s.buffered + [] == s.buffered;
  }

  lemma ReceiveConserves(h: History, m: seq<uint8>)
    requires DataKept(h) && |m| >= REACH
    ensures DataKept(Act(h, Receive(m)))
  {
    hide Wire, Payload, Surviving, Received, Grants, Spends, Kept, Connects, IsData;
    var s := h.port;
    ReceivedKeeps(s, m);
    if Connects(s, Receive(m)) {
      ConnectingConserves(h, Receive(m), Received(s, m));
    }
    AppendToBoth(h.returned, s.buffered, if IsData(s, m) then Kept(s.buffered, Payload(m)) else []);
  }

  lemma AppendToBoth(a: seq<uint8>, b: seq<uint8>, c: seq<uint8>)
    ensures (a + b) + c == a + (b + c)
  {
  }

  lemma MultiplexedConnects(a: Port, m: seq<uint8>)
    requires |m| >= REACH && Sound(a)
    ensures !a.connected && Multiplexed(a, m).connected <==> Connects(a, Receive(m))
  {
    hide Reply, Acknowledgement, CreditPacket;
  }

  lemma ServiceConserves(h: History, elapsed: bool)
    requires DataKept(h)
    ensures DataKept(Act(h, Service(elapsed)))
  {
    hide Wire, Flushed, Surviving;
    var comes := h.port.waiting && elapsed;
    var s := if comes then Established(h.port) else h.port;
    if comes {
      ConnectingConserves(h, Service(elapsed), s);
    }
    FlushConserves(s);
    FlushKeepsSound(s);
  }

  lemma FlushKeepsSound(s: Port)
    requires Sound(s)
    ensures Sound(Flushed(s)) && Flushed(s).buffered == s.buffered && Flushed(s).bytesRead == s.bytesRead
    ensures Flushed(s).pending == [] || Flushed(s) == s
  {
  }

  /** What is pending after a write are the last of the bytes pending before it
      and the bytes written. */
  lemma {:induction false} WrittenPendingIsLast(s: Port, data: seq<uint8>)
    requires s.channel % 8 == 0
    ensures var all, p := s.pending + data, Written(s, data).pending;
      |p| <= |all| && all[|all| - |p|..] == p
    decreases |data|
  {
    hide Segments;
    if data != [] {
      var n := |data| - 1;
      WrittenPendingIsLast(s, data[..n]);
      assert s.pending + data == (s.pending + data[..n]) + [data[n]];
    }
  }

  lemma WriteStepConserves(h: History, data: seq<uint8>)
    requires DataKept(h) && Writable(h.port, data)
    ensures DataKept(Act(h, Write(data)))
  {
    hide Wire, Written, Surviving;
    WriteConserves(h.port, data);
    WrittenPendingIsLast(h.port, data);
    var alive := seq(|data|, _ => false);
    SurvivingAppend(h.written, h.gone, data, alive);
    SurvivingUniform(data, alive, false);
    var n, p := |h.written|, |h.port.pending|;
    assert h.written + data == h.written[..n - p] + (h.port.pending + data);
  }

  lemma ActConserves(h: History, op: Op)
    requires DataKept(h) && Allowed(h.port, op)
    ensures DataKept(Act(h, op))
  {
    hide Wire, Written, ReadOne, Received, Serviced, Surviving, Flushed;
    match op
    case Write(data) => WriteStepConserves(h, data);
    case Send =>
      FlushConserves(h.port);
      FlushKeepsSound(h.port);
    case Read => ReadConserves(h);
    case Receive(memory) => ReceiveConserves(h, memory);
    case Service(elapsed) => ServiceConserves(h, elapsed);
  }

  /** What an operation does to the two buffers of received data. */
  lemma ActBuffers(h: History, op: Op)
    requires Sound(h.port) && Allowed(h.port, op)
    ensures var s, r := h.port, Act(h, op);
      match op
      case Read =>
        if s.buffered == [] then r == h.(port := r.port, gone := r.gone) && r.port == s
        else |r.port.buffered| == |s.buffered| - 1 && r.grants == h.grants && r.credit == h.credit && r.refused == h.refused
             && r.earlier == h.earlier
             && r.renewals == h.renewals + (if s.bytesRead == CAPACITY - 5 then 1 else 0)
             && r.port.bytesRead == if s.bytesRead == CAPACITY - 5 then 0 else s.bytesRead + 1
      case Receive(m) =>
        var taken := if IsData(s, m) then Kept(s.buffered, Payload(m)) else [];
        && r.port.bytesRead == s.bytesRead && r.port.buffered == s.buffered + taken && r.renewals == h.renewals
        && (if Grants(s, m) then r.grants == h.grants + 1 && r.credit == 0 && r.earlier == h.renewals && r.refused == 0 && taken == []
            else r.grants == h.grants && r.earlier == h.earlier
                 && (if Spends(s, m) then r.credit == h.credit - 1 && r.refused == h.refused + Length(m) - |taken|
                     else r.credit == h.credit && r.refused == h.refused))
      case _ =>
        && r.port.bytesRead == s.bytesRead && r.port.buffered == s.buffered && r.renewals == h.renewals && r.grants == h.grants
        && r.credit == h.credit && r.earlier == h.earlier && r.refused == h.refused
  {
    hide Wire, Payload, Received, Kept, Spends, CreditPacket, Segments;
    match op
    case Receive(m) => ReceivedKeeps(h.port, m);
    case Write(data) => WrittenBuffers(h.port, data);
    case _ =>
  }

  lemma {:induction false} WrittenBuffers(s: Port, data: seq<uint8>)
    requires s.channel % 8 == 0
    ensures Written(s, data).buffered == s.buffered && Written(s, data).bytesRead == s.bytesRead
    decreases |data|
  {
    hide Segments;
    if data != [] {
      WrittenBuffers(s, data[..|data| - 1]);
    }
  }

  /** The credit after an operation: what the packets sent in it carry comes to
      100 for each grant and renewal. */
  lemma StepCredit(h: History, op: Op)
    requires Sound(h.port) && Allowed(h.port, op)
    ensures var r := Act(h, op);
      var more := CAPACITY * ((r.grants + r.renewals) - (h.grants + h.renewals));
      Step(h, op) == r.(credit := r.credit + more) && CreditsIn(r.port.sent) == CreditsIn(h.port.sent) + more
  {
    hide Act, CreditsIn;
    ActCredit(h, op);
  }

  lemma StepBoundsCredit(h: History, op: Op)
    requires Sound(h.port) && CreditBounded(h) && Allowed(h.port, op)
    ensures CreditBounded(Step(h, op))
  {
    hide Act, Step, Payload, Received, CreditsIn, IsData;
    StepCredit(h, op);
    ActBuffers(h, op);
  }

  lemma StepConserves(h: History, op: Op)
    requires Conserves(h) && Allowed(h.port, op)
    ensures Conserves(Step(h, op))
  {
    hide Wire, Act, Step, Surviving, CreditBounded, CreditsIn, Allowed, Sound;
    ActConserves(h, op);
    StepCredit(h, op);
    StepBoundsCredit(h, op);
  }

  /** A new port with nothing written or received keeps it. */
  lemma NewPortConserves(link: Link)
    ensures Conserves(History(Port(link, false, 0, 0, [], [], [], 0, false, false), [], [], [], [], 0, 0, 0, 0, 0))
  {
  }

  /** The histories a run of allowed operations goes through. */
  ghost predicate Run(states: seq<History>, ops: seq<Op>) {
    && |states| == |ops| + 1
    && forall i | 0 <= i < |ops| :: Sound(states[i].port) ==>
         Allowed(states[i].port, ops[i]) && states[i + 1] == Step(states[i], ops[i])
  }

  /** Over any run: the frames of send carry, with what is pending, exactly the
      bytes written that were not pending when a connection came; the bytes read
      and those still buffered are the payload bytes taken from the frames; both
      in order. */
  lemma {:induction false} RunsConserve(states: seq<History>, ops: seq<Op>, n: nat)
    requires Run(states, ops) && n <= |ops| && Conserves(states[0])
    ensures Conserves(states[n])
  {
    hide Conserves, Step, Allowed;
    if n > 0 {
      RunsConserve(states, ops, n - 1);
      SoundOf(states[n - 1]);
      StepConserves(states[n - 1], ops[n - 1]);
    }
  }

  /** What was written before the connection came is gone: none of it is on the
      wire, and nothing is lost exactly when there was nothing. */
  lemma WrittenBeforeConnectionIsGone(s: Port, data: seq<uint8>, m: seq<uint8>)
    requires Sound(s) && !s.connected && Writable(s, data) && |m| >= REACH
    requires Connects(s, Receive(m))
    ensures Sound(Written(s, data))
    ensures var r := Received(Written(s, data), m);
      && r.connected && Wire(r.sent) == Wire(s.sent) && r.pending == []
      && (Wire(r.sent) + r.pending == Wire(s.sent) + s.pending + data <==> s.pending + data == [])
  {
    hide Wire, Written, Multiplexed, Payload;
    WriteConserves(s, data);
    DisconnectedWriteSendsNothing(s, data);
    var w := Written(s, data);
    AddressedKeeps(w, m);
    MultiplexedKeeps(Addressed(w, m), m);
    MultiplexedConnects(Addressed(w, m), m);
    assert |Wire(s.sent) + s.pending + data| == |Wire(s.sent)| + |s.pending + data|;
  }

  lemma {:induction false} DisconnectedWriteSendsNothing(s: Port, data: seq<uint8>)
    requires s.channel % 8 == 0 && !s.connected
    ensures Written(s, data).sent == s.sent
    decreases |data|
  {
    if data != [] {
      DisconnectedWriteSendsNothing(s, data[..|data| - 1]);
    }
  }

  // ----- credit

  /** Over any run, once the credit is granted, the peer keeps at least five, and
      four more for each renewal, but for one for each byte not yet read and each
      byte refused. */
  lemma CreditNeverRunsOut(states: seq<History>, ops: seq<Op>, n: nat)
    requires Run(states, ops) && n <= |ops| && Conserves(states[0])
    ensures var h := states[n];
      h.grants > 0 ==> h.credit >= 5 + 4 * (h.renewals - h.earlier) - |h.port.buffered| - h.refused
  {
    hide Wire, Surviving, Step, Allowed;
    RunsConserve(states, ops, n);
  }

  /** Frames with a payload that come before the connection cost the peer a
      credit each, and nothing is ever read that could renew it. */
  lemma {:induction false} LostFramesCost(states: seq<History>, ops: seq<Op>, n: nat)
    requires Run(states, ops) && n <= |ops| && Conserves(states[0])
    requires forall i | 0 <= i < n :: LosesFrame(states[i].port, ops[i])
    ensures var h, h' := states[0], states[n];
      && h'.credit == h.credit - n && h'.accepted == h.accepted
      && h'.port.buffered == h.port.buffered && h'.port.bytesRead == h.port.bytesRead
  {
    hide Payload, Kept, Conserves, Act, Step;
    if n > 0 {
      LostFramesCost(states, ops, n - 1);
      RunStep(states, ops, n - 1);
      SoundOf(states[n - 1]);
      StepCredit(states[n - 1], ops[n - 1]);
      ActBuffers(states[n - 1], ops[n - 1]);
      LostIsNotTaken(states[n - 1], ops[n - 1]);
    }
  }

  lemma SoundOf(h: History)
    requires Conserves(h)
    ensures Sound(h.port)
  {
  }

  lemma LostIsNotTaken(h: History, op: Op)
    requires Sound(h.port) && LosesFrame(h.port, op)
    ensures Act(h, op).accepted == h.accepted
  {
    hide Payload, Received;
    assert h.accepted + [] == h.accepted;
  }

  ghost predicate LosesFrame(s: Port, op: Op) {
    && op.Receive? && |op.memory| >= REACH && !s.connected && !Grants(s, op.memory)
    && ChannelType(op.memory[9]) == 0xEF && op.memory[8] / 8 != 0 && op.memory[10] / 2 > 0
  }

  /** The peer sends one byte in a frame. */
  ghost predicate OneByte(s: Port, op: Op) {
    op.Receive? && |op.memory| >= REACH && IsData(s, op.memory) && Length(op.memory) == 1 && |Payload(op.memory)| == 1
  }

  /** One byte at a time, each read before the next comes. */
  ghost predicate Rounds(states: seq<History>, ops: seq<Op>, n: nat)
    requires |states| == |ops| + 1 && 2 * n <= |ops|
  {
    forall i | 0 <= i < n :: OneByte(AfterRounds(states, i).port, ops[2 * i]) && ops[2 * i + 1] == Read
  }

  /** The history after n rounds. */
  ghost function AfterRounds(states: seq<History>, n: nat): History
    requires 2 * n < |states|
  {
    states[2 * n]
  }

  ghost predicate AlwaysCredit(states: seq<History>, n: nat)
    requires 2 * n < |states|
  {
    forall i: nat | i <= n :: AfterRounds(states, i).credit > 0
  }

  lemma OneRound(h: History, op: Op)
    requires Conserves(h) && h.port.buffered == [] && OneByte(h.port, op)
    ensures Conserves(Step(h, op))
    ensures var h' := Step(Step(h, op), Read);
      && h'.port.buffered == [] && h'.port.bytesRead == (h.port.bytesRead + 1) % (CAPACITY - 4)
      && h'.credit == h.credit - 1 + if h.port.bytesRead == CAPACITY - 5 then CAPACITY else 0
  {
    hide Conserves, Payload, Act, Step, Kept, Received;
    StepConserves(h, op);
    SoundOf(h);
    StepCredit(h, op);
    ActBuffers(h, op);
    var h1 := Step(h, op);
    SoundOf(h1);
    StepCredit(h1, Read);
    ActBuffers(h1, Read);
    KeptOne(Payload(op.memory));
  }

  lemma KeptOne(payload: seq<uint8>)
    requires |payload| == 1
    ensures Kept([], payload) == payload
  {
  }

  lemma {:induction false} CreditOfRounds(states: seq<History>, ops: seq<Op>, n: nat)
    requires Run(states, ops) && 2 * n <= |ops| && Conserves(states[0]) && states[0].port.buffered == [] && Rounds(states, ops, n)
    ensures var b, h := states[0].port.bytesRead, AfterRounds(states, n);
      && h.port.buffered == [] && h.port.bytesRead == (b + n) % (CAPACITY - 4)
      && h.credit == states[0].credit + CAPACITY * ((b + n) / (CAPACITY - 4)) - n
  {
    hide Conserves, Step, OneByte;
    if n > 0 {
      CreditOfRounds(states, ops, n - 1);
      var h := AfterRounds(states, n - 1);
      assert OneByte(h.port, ops[2 * (n - 1)]) && ops[2 * (n - 1) + 1] == Read;
      RunStep(states, ops, 2 * n - 2);
      RunStep(states, ops, 2 * n - 1);
      OneRound(h, ops[2 * n - 2]);
      NextCount(states[0].port.bytesRead + n - 1);
    } else {
      BytesReadBounded(states[0]);
    }
  }

  lemma RunStep(states: seq<History>, ops: seq<Op>, i: nat)
    requires Run(states, ops) && i < |ops| && Conserves(states[0])
    ensures Conserves(states[i]) && Allowed(states[i].port, ops[i]) && states[i + 1] == Step(states[i], ops[i])
  {
    hide Wire, Surviving, Step, Allowed, CreditBounded;
    RunsConserve(states, ops, i);
  }

  lemma NextCount(k: nat)
    ensures (k + 1) % (CAPACITY - 4) == (k % (CAPACITY - 4) + 1) % (CAPACITY - 4)
    ensures (k + 1) / (CAPACITY - 4) == k / (CAPACITY - 4) + if k % (CAPACITY - 4) == CAPACITY - 5 then 1 else 0
  {
  }

  /** A peer that sends single bytes, each read at once, always has a credit left
      exactly when its credit reaches the next renewal, after 96 bytes read: five
      frames lost before the first byte are too many. */
  lemma CreditLastsExactlyWhen(states: seq<History>, ops: seq<Op>, n: nat)
    requires Run(states, ops) && 2 * n <= |ops| && Conserves(states[0]) && states[0].port.buffered == [] && Rounds(states, ops, n)
    ensures AlwaysCredit(states, n) <==> states[0].credit + states[0].port.bytesRead >= CAPACITY - 4 || n < states[0].credit
  {
    hide Conserves, Step, OneByte;
    var credit := states[0].credit;
    forall i: nat | i <= n
      ensures AfterRounds(states, i).credit == credit + CAPACITY * ((states[0].port.bytesRead + i) / (CAPACITY - 4)) - i
    {
      CreditOfRounds(states, ops, i);
    }
    BytesReadBounded(states[0]);
    var stop: nat := if credit > 0 then credit else 0;
    if credit + states[0].port.bytesRead < CAPACITY - 4 && n >= credit {
      assert AfterRounds(states, stop).credit <= 0;
    }
  }

  lemma BytesReadBounded(h: History)
    requires Conserves(h)
    ensures h.port.bytesRead <= CAPACITY - 5
  {
  }

  /** From a fresh grant on, with `lost` such frames before the connection comes
      and then one byte at a time: fewer than five lost frames never hurt, from
      five on the peer runs out at its hundredth frame. */
  lemma LostFramesExhaustExactlyWhen(states: seq<History>, ops: seq<Op>, lost: nat, n: nat)
    requires Run(states, ops) && |ops| == lost + 1 + 2 * n && Conserves(states[0])
    requires states[0].credit == CAPACITY && states[0].port.bytesRead == 0 && states[0].port.buffered == []
    requires (forall i | 0 <= i < lost :: LosesFrame(states[i].port, ops[i])) && ops[lost].Service?
    requires Rounds(states[lost + 1..], ops[lost + 1..], n)
    ensures AlwaysCredit(states[lost + 1..], n) <==> lost < 5 || lost + n < CAPACITY
  {
    hide Conserves, LosesFrame, Rounds;
    LostFramesCost(states, ops, lost);
    RunStep(states, ops, lost);
    ServiceKeepsCredit(states[lost], ops[lost]);
    var later, rest := states[lost + 1..], ops[lost + 1..];
    RunFrom(states, ops, lost + 1);
    CreditLastsExactlyWhen(later, rest, n);
  }

  lemma ServiceKeepsCredit(h: History, op: Op)
    requires Conserves(h) && op.Service?
    ensures var h' := Step(h, op);
      Conserves(h') && h'.credit == h.credit && h'.port.bytesRead == h.port.bytesRead && h'.port.buffered == h.port.buffered
  {
    hide Conserves, Act, Step;
    StepConserves(h, op);
    SoundOf(h);
    StepCredit(h, op);
    ActBuffers(h, op);
  }

  lemma RunFrom(states: seq<History>, ops: seq<Op>, k: nat)
    requires Run(states, ops) && k <= |ops|
    ensures Run(states[k..], ops[k..])
  {
    hide Step, Allowed, Sound;
    var later, rest := states[k..], ops[k..];
    forall i | 0 <= i < |rest|
      ensures Sound(later[i].port) ==> Allowed(later[i].port, rest[i]) && later[i + 1] == Step(later[i], rest[i])
    {
      assert later[i] == states[k + i] && rest[i] == ops[k + i];
    }
  }

  /** Once everything is read, nothing but a frame of the peer, or a new grant,
      changes its credit: without credit it stays without. */
  lemma {:induction false} OutOfCreditForGood(states: seq<History>, ops: seq<Op>, n: nat)
    requires Run(states, ops) && n <= |ops| && Conserves(states[0]) && states[0].port.buffered == []
    requires forall i | 0 <= i < n && ops[i].Receive? && |ops[i].memory| >= REACH ::
               !Spends(states[i].port, ops[i].memory) && !Grants(states[i].port, ops[i].memory)
    ensures states[n].credit == states[0].credit && states[n].port.buffered == []
  {
    if n > 0 {
      OutOfCreditForGood(states, ops, n - 1);
      RunsConserve(states, ops, n - 1);
      IdleKeepsCredit(states[n - 1], ops[n - 1]);
    }
  }

  lemma IdleKeepsCredit(h: History, op: Op)
    requires Conserves(h) && h.port.buffered == [] && Allowed(h.port, op)
    requires op.Receive? ==> !Spends(h.port, op.memory) && !Grants(h.port, op.memory)
    ensures Step(h, op).credit == h.credit && Step(h, op).port.buffered == []
  {
    hide Conserves, Payload, Act, Step, Kept;
    SoundOf(h);
    StepCredit(h, op);
    ActBuffers(h, op);
    if op.Receive? && IsData(h.port, op.memory) {
      EmptyPayload(op.memory);
    }
  }

  lemma EmptyPayload(m: seq<uint8>)
    requires |m| >= REACH && Length(m) == 0
    ensures Kept([], Payload(m)) == []
  {
  }
}
