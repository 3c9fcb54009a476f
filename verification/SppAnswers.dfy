/** What the serial port puts on the wire, byte by byte, and when its connection
    comes and goes. */
module SppAnswers {
  import opened Integers
  import opened RfcommFcs
  import opened Spp

  // ----- packets by their fields

  function Little(low: int, high: int): int {
    low + 0x100 * high
  }

  /** An L2CAP packet on this link: the handle in twelve bits with flag 2 above
      it, the length of what follows, twice, and the channel. */
  ghost predicate OnLink(m: seq<uint8>, link: Link) {
    && |m| >= 12
    && Little(m[0], m[1] % 0x10) == link.handle % 0x1000 && m[1] / 0x10 == 2
    && Little(m[2], m[3]) == |m| - 4 && Little(m[4], m[5]) == |m| - 8
    && m[6] == link.cidLow && m[7] == link.cidHigh
  }

  /** A packet with an RFCOMM frame that its receiver accepts. */
  ghost predicate Carries(p: Sent, link: Link, address: uint8, control: uint8, payload: seq<uint8>) {
    var m := p.packet;
    && OnLink(m, link) && |m| == 12 + |payload|
    && m[8] == address && m[9] == control && m[10] == 2 * |payload| + 1
    && m[11..11 + |payload|] == payload && FcsOk(m[8], m[9], m[10], m[|m| - 1])
  }

  /** The same with a credit byte before an empty payload. */
  ghost predicate CarriesCredit(p: Sent, link: Link, address: uint8, credit: uint8) {
    var m := p.packet;
    && OnLink(m, link) && |m| == 13
    && m[8] == address && m[9] == 0xFF && m[10] == 1 && m[11] == credit && FcsOk(m[8], m[9], m[10], m[12])
  }

  lemma PacketIsOnLink(link: Link, data: seq<uint8>)
    requires 4 <= |data| <= 255
    ensures OnLink(Packet(link, data), link) && Packet(link, data)[8..] == data
  {
    var m := Packet(link, data);
    var high := link.handle / 0x100;
    assert m[1] == high % 0x10 + 0x20;
    assert link.handle == high * 0x100 + link.handle % 0x100;
    assert high == high / 0x10 * 0x10 + high % 0x10;
  }

  lemma FrameCarries(link: Link, address: uint8, control: uint8, payload: seq<uint8>, p: Sent)
    requires |payload| <= 127 && p.packet == Packet(link, Frame(address, control, payload))
    ensures Carries(p, link, address, control, payload)
  {
    hide Fcs, FcsOk, Packet, OnLink;
    var frame := Frame(address, control, payload);
    PacketIsOnLink(link, frame);
    var m := p.packet;
    assert forall i | 0 <= i < |frame| :: m[8..][i] == m[8 + i];
    assert m[8] == frame[0] && m[9] == frame[1] && m[10] == frame[2] && m[|m| - 1] == frame[|frame| - 1];
    assert frame[3..3 + |payload|] == payload;
    assert m[11..11 + |payload|] == m[8..][3..3 + |payload|];
    FcsOkExactlyFcs(m[8], m[9], m[10], m[|m| - 1]);
  }

  /** A credit goes to the device the last frame came from: same channel, same
      direction bit, as a command. */
  lemma CreditGoesBack(s: Port, m: seq<uint8>, a: Port)
    requires |m| >= REACH && Sound(s) && m[8] / 8 != 0 && a == Addressed(s, m) && Sound(a)
    ensures CarriesCredit(CreditPacket(a), s.link, Back(m), 100)
  {
    hide Fcs, FcsOk, Packet, OnLink;
    assert a.channel + a.direction + 1 == Back(m);
    CreditCarries(a, Back(m));
  }

  /** The address of an answer to a frame. */
  function Back(m: seq<uint8>): uint8
    requires |m| > 10
  {
    m[8] / 4 * 4 + 1
  }

  lemma CreditCarries(a: Port, address: uint8)
    requires Sound(a) && address == a.channel + a.direction + 1
    ensures CarriesCredit(CreditPacket(a), a.link, address, 100)
  {
    hide Fcs, FcsOk, Packet, OnLink;
    var frame := CreditFrame(address, 0xFF, 100, []);
    PacketIsOnLink(a.link, frame);
    var p := CreditPacket(a).packet;
    assert p == Packet(a.link, frame);
    assert forall i | 0 <= i < |frame| :: p[8..][i] == p[8 + i];
    assert p[8] == frame[0] && p[9] == frame[1] && p[10] == frame[2] && p[11] == frame[3] && p[12] == frame[4];
    FcsOkExactlyFcs(p[8], p[9], p[10], p[12]);
  }

  /** Every segment is a UIH frame from this side on the connection's channel. */
  lemma {:induction false} SegmentsCarryData(link: Link, address: uint8, bytes: seq<uint8>)
    ensures forall p | p in Segments(link, address, bytes) :: Carries(p, link, address, 0xEF, DataOf(p))
    decreases |bytes|
  {
    hide Carries, DataOf, Packet, Frame;
    if bytes != [] {
      var n := if |bytes| > MAX_PAYLOAD then MAX_PAYLOAD else |bytes|;
      var first := Serial(Packet(link, Frame(address, UIH, bytes[..n])));
      DataOfFrame(link, address, bytes[..n]);
      FrameCarries(link, address, UIH, bytes[..n], first);
      SegmentsCarryData(link, address, bytes[n..]);
    }
  }

  lemma {:induction false} SegmentsAreFull(link: Link, address: uint8, bytes: seq<uint8>)
    ensures |Segments(link, address, bytes)| == (|bytes| + 59) / 60
    decreases |bytes|
  {
    hide Packet, Frame;
    if |bytes| > MAX_PAYLOAD {
      SegmentsAreFull(link, address, bytes[MAX_PAYLOAD..]);
    } else if bytes != [] {
      assert bytes[|bytes|..] == [];
      SegmentsAreFull(link, address, bytes[|bytes|..]);
    }
  }

  /** What send adds: nothing without a connection, else all pending bytes in as
      few frames as hold them, on the connection's channel. */
  lemma FlushSends(s: Port)
    requires Sound(s)
    ensures var r := Flushed(s);
      var n := |s.sent|;
      && s.sent <= r.sent && (!s.connected ==> r == s) && (s.connected ==> r.pending == [])
      && (s.connected ==> Wire(r.sent[n..]) == s.pending && |r.sent| == n + (|s.pending| + 59) / 60)
      && forall p | p in r.sent[n..] :: Carries(p, s.link, s.channel + 1, 0xEF, DataOf(p)) && 1 <= |DataOf(p)| <= 60
  {
    hide Carries, DataOf, Wire, Segments;
    SegmentsCarryAll(s.link, s.channel + 1, s.pending);
    SegmentsCarryData(s.link, s.channel + 1, s.pending);
    SegmentsAreFull(s.link, s.channel + 1, s.pending);
    assert (s.sent + Segments(s.link, s.channel + 1, s.pending))[|s.sent|..] == Segments(s.link, s.channel + 1, s.pending);
    assert s.sent[|s.sent|..] == [];
  }

  /** write holds its bytes back as long as they fit. */
  lemma {:induction false} WriteHoldsBack(s: Port, data: seq<uint8>)
    requires Sound(s) && |s.pending| + |data| <= 100
    ensures Written(s, data) == s.(pending := s.pending + data)
    decreases |data|
  {
    if data == [] {
      assert s.pending + data == s.pending;
    } else {
      var n := |data| - 1;
      WriteHoldsBack(s, data[..n]);
      assert s.pending + data == (s.pending + data[..n]) + [data[n]];
    }
  }

  /** Of a payload the longest part that fits is kept. */
  lemma KeptFits(buffered: seq<uint8>, payload: seq<uint8>)
    requires |buffered| <= 100
    ensures Kept(buffered, payload) <= payload && |Kept(buffered, payload)| == Min(|payload|, 100 - |buffered|)
  {
  }

  // ----- answers

  /** The type of a frame, without its P/F bit. */
  function TypeOf(m: seq<uint8>): nat
    requires |m| > 10
  {
    m[9] / 0x20 * 0x20 + m[9] % 0x10
  }

  function Poll(m: seq<uint8>): nat
    requires |m| > 10
  {
    if m[9] / 0x10 % 2 == 1 then 0x10 else 0
  }

  /** What is sent on a frame. */
  ghost predicate Sends(s: Port, m: seq<uint8>, news: seq<Sent>)
    requires |m| >= REACH && Sound(s)
  {
    Received(s, m).sent == s.sent + news
  }

  /** An unnumbered acknowledgement: the frame's own address and P/F bit. */
  ghost predicate Acknowledges(p: Sent, s: Port, m: seq<uint8>)
    requires |m| > 10
  {
    Carries(p, s.link, m[8] / 2 * 2 + 1, 0x63 + Poll(m), [])
  }

  /** A multiplexer message to where the frame came from, with its P/F bit. */
  ghost predicate Says(p: Sent, s: Port, m: seq<uint8>, message: seq<uint8>)
    requires |m| > 10
  {
    Carries(p, s.link, Back(m), 0xEF + Poll(m), message)
  }

  lemma ReplySays(a: Port, m: seq<uint8>, message: seq<uint8>)
    requires |m| > 10 && |message| <= 10
    ensures Says(Reply(a, m, message), a, m, message)
  {
    hide Carries, Packet, Frame;
    FrameCarries(a.link, m[8] / 4 * 4 + 1, UIH + PfBit(m), message, Reply(a, m, message));
  }

  lemma AcknowledgementAcknowledges(a: Port, m: seq<uint8>)
    requires |m| > 10
    ensures Acknowledges(Acknowledgement(a, m), a, m)
  {
    hide Carries, Packet, Frame;
    FrameCarries(a.link, m[8] / 2 * 2 + 1, UA + PfBit(m), [], Acknowledgement(a, m));
  }

  lemma TypeIsChannelType(m: seq<uint8>)
    requires |m| > 10
    ensures ChannelType(m[9]) == TypeOf(m)
  {
  }

  /** A disconnect is acknowledged, and so is a request for a connection while
      there is none. */
  lemma RequestIsAcknowledged(s: Port, m: seq<uint8>) returns (p: Sent)
    requires |m| >= REACH && Sound(s)
    requires TypeOf(m) == 0x43 || (TypeOf(m) == 0x2F && !s.connected)
    ensures Sends(s, m, [p]) && Acknowledges(p, s, m)
  {
    hide Acknowledges, Acknowledgement, Reply, CreditPacket, Payload;
    var a := Addressed(s, m);
    p := Acknowledgement(a, m);
    AcknowledgementAcknowledges(a, m);
    SameLink(s, m, p);
  }

  lemma SameLink(s: Port, m: seq<uint8>, p: Sent)
    requires |m| > 10
    ensures Acknowledges(p, Addressed(s, m), m) == Acknowledges(p, s, m)
    ensures forall message: seq<uint8> :: Says(p, Addressed(s, m), m, message) == Says(p, s, m, message)
  {
    hide Carries;
  }

  /** A port negotiation is answered with the parameters it came with, and its
      own type less the command bit; before the connection only without credit. */
  lemma NegotiationIsAnswered(s: Port, m: seq<uint8>) returns (p: Sent)
    requires |m| >= REACH && Sound(s) && !IsData(s, m)
    requires TypeOf(m) == 0xEF && m[11] == 0x93 && (s.connected || m[10] != 1)
    ensures Sends(s, m, [p]) && Says(p, s, m, [m[11] - 2] + m[12..21])
  {
    hide Acknowledgement, Reply, CreditPacket, Payload, Says;
    var a := Addressed(s, m);
    p := Reply(a, m, PortNegotiationReply(m));
    ReplySays(a, m, PortNegotiationReply(m));
    SameLink(s, m, p);
  }

  /** A modem status command is answered with its values; before the connection
      the port's own status follows: ready, with data. */
  lemma StatusIsAnswered(s: Port, m: seq<uint8>) returns (news: seq<Sent>)
    requires |m| >= REACH && Sound(s) && !IsData(s, m) && TypeOf(m) == 0xEF && m[11] == 0xE3
    ensures Sends(s, m, news) && |news| == (if s.connected then 1 else 2)
    ensures Says(news[0], s, m, [m[11] - 2, 2 * 2 + 1, m[13], m[14]])
    ensures !s.connected ==> Says(news[1], s, m, [m[11], 2 * 2 + 1, m[13], 0x8D])
  {
    hide Acknowledgement, Reply, CreditPacket, Payload, Says;
    var a := Addressed(s, m);
    var answer, own := Reply(a, m, ModemStatusReply(m)), Reply(a, m, ModemStatusCommand(m));
    news := if s.connected then [answer] else [answer, own];
    ReplySays(a, m, ModemStatusReply(m));
    ReplySays(a, m, ModemStatusCommand(m));
    SameLink(s, m, answer);
    SameLink(s, m, own);
  }

  /** A parameter negotiation before the connection is answered for the same
      channel and priority, with credit based flow control and frames of 50. */
  lemma ParametersAreAnswered(s: Port, m: seq<uint8>) returns (p: Sent)
    requires |m| >= REACH && Sound(s) && !s.connected && TypeOf(m) == 0xEF && m[11] == 0x83
    ensures Sends(s, m, [p]) && Says(p, s, m, [m[11] - 2, m[12], m[13], 0xE0, 0, 0, 64 - 14, 0, 0, 0])
  {
    hide Acknowledgement, Reply, CreditPacket, Payload, Says;
    var a := Addressed(s, m);
    p := Reply(a, m, ParameterReply(m));
    ReplySays(a, m, ParameterReply(m));
    SameLink(s, m, p);
  }

  /** A modem status response before the connection brings 100 credits, once. */
  lemma StatusResponseBringsCredit(s: Port, m: seq<uint8>) returns (p: Sent)
    requires |m| >= REACH && Sound(s) && !s.connected && TypeOf(m) == 0xEF && m[11] == 0xE1 && m[8] / 8 != 0
    ensures if s.creditSent then Sends(s, m, []) else Sends(s, m, [p]) && CarriesCredit(p, s.link, Back(m), 100)
  {
    hide Acknowledgement, Reply, CreditPacket, Payload, CarriesCredit;
    AddressedKeeps(s, m);
    CreditGoesBack(s, m, Addressed(s, m));
    p := CreditPacket(Addressed(s, m));
    assert s.sent + [] == s.sent;
  }

  /** Nothing else is answered. */
  lemma OthersAreNotAnswered(s: Port, m: seq<uint8>)
    requires |m| >= REACH && Sound(s) && TypeOf(m) != 0x43
    requires IsData(s, m) || (TypeOf(m) == 0x2F && s.connected) || (TypeOf(m) != 0x2F && TypeOf(m) != 0xEF)
          || (TypeOf(m) == 0xEF && m[11] !in {0x83, 0xE3, 0xE1, 0x93})
          || (TypeOf(m) == 0xEF && m[11] in {0x83, 0xE1} && s.connected)
          || (TypeOf(m) == 0xEF && m[11] == 0x93 && m[10] == 1 && !s.connected)
    ensures Sends(s, m, [])
  {
    hide Acknowledgement, Reply, CreditPacket, Payload;
    assert s.sent + [] == s.sent;
  }

  // ----- when the connection comes and goes

  /** A frame that negotiates the port. */
  predicate Negotiates(m: seq<uint8>)
    requires |m| > 11
  {
    TypeOf(m) == 0xEF && m[11] == 0x93 && m[10] != 1
  }

  /** A modem status response. */
  predicate GivesStatus(m: seq<uint8>)
    requires |m| > 11
  {
    TypeOf(m) == 0xEF && m[11] == 0xE1
  }

  /** What a frame does to the connection, field by field. */
  lemma ConnectionAfterFrame(s: Port, m: seq<uint8>)
    requires |m| >= REACH && Sound(s)
    ensures var r := Received(s, m);
      && (r.connected <==> TypeOf(m) != 0x43 && (s.connected || Negotiates(m)))
      && (r.waiting <==> (!s.connected && GivesStatus(m) && !s.creditSent) || (s.waiting && (s.connected || !Negotiates(m))))
      && (r.creditSent <==> (!s.connected && GivesStatus(m)) || (s.creditSent && (s.connected || !Negotiates(m))))
      && r.pending == if !s.connected && Negotiates(m) then [] else s.pending
  {
    hide Acknowledgement, Reply, CreditPacket, Payload;
  }

  /** What Run does: the wait for a negotiation ends with the connection, and on
      a connection everything goes out. */
  lemma ConnectionAfterRun(s: Port, elapsed: bool)
    requires Sound(s)
    ensures var r := Serviced(s, elapsed);
      && (r.connected <==> s.connected || (s.waiting && elapsed))
      && (r.waiting <==> s.waiting && !elapsed)
      && (r.creditSent <==> s.creditSent && !(s.waiting && elapsed))
      && (r.pending == if r.connected then [] else s.pending)
  {
    hide Segments;
  }

  lemma OtherOpsKeepConnection(h: History, op: Op)
    requires Sound(h.port) && Allowed(h.port, op) && !op.Receive? && !op.Service?
    ensures var r := Act(h, op).port;
      r.connected == h.port.connected && r.waiting == h.port.waiting && r.creditSent == h.port.creditSent
  {
    hide Segments, CreditPacket;
    if op.Write? {
      WriteKeepsConnection(h.port, op.data);
    }
  }

  lemma {:induction false} WriteKeepsConnection(s: Port, data: seq<uint8>)
    requires s.channel % 8 == 0
    ensures var r := Written(s, data);
      r.connected == s.connected && r.waiting == s.waiting && r.creditSent == s.creditSent
    decreases |data|
  {
    hide Segments;
    if data != [] {
      WriteKeepsConnection(s, data[..|data| - 1]);
    }
  }

  /** What can bring the connection: a negotiation, or the end of the wait. */
  ghost predicate Brings(s: Port, op: Op) {
    match op
    case Receive(m) => |m| > 11 && Negotiates(m)
    case Service(elapsed) => s.waiting && elapsed
    case _ => false
  }

  /** What can start the wait: a modem status response. */
  ghost predicate StartsWait(op: Op) {
    op.Receive? && |op.memory| > 11 && GivesStatus(op.memory)
  }

  lemma StepOfConnection(h: History, op: Op)
    requires Conserves(h) && Allowed(h.port, op)
    ensures var r := Step(h, op).port;
      && (r.connected ==> h.port.connected || Brings(h.port, op))
      && (r.waiting ==> h.port.waiting || StartsWait(op))
  {
    hide Conserves, Act, Step, Received, Serviced, Negotiates, GivesStatus;
    SoundOf(h);
    StepCredit(h, op);
    PortOfAct(h, op);
    match op
    case Receive(m) => ConnectionAfterFrame(h.port, m);
    case Service(elapsed) => ConnectionAfterRun(h.port, elapsed);
    case _ => OtherOpsKeepConnection(h, op);
  }

  lemma PortOfAct(h: History, op: Op)
    requires Sound(h.port) && Allowed(h.port, op)
    ensures op.Receive? ==> Act(h, op).port == Received(h.port, op.memory)
    ensures op.Service? ==> Act(h, op).port == Serviced(h.port, op.elapsed)
  {
    hide Received, Serviced, Payload, Written, Flushed;
  }

  /** Over any run that starts without a connection: whoever is connected has had
      a negotiation, or has waited, since it was last not connected. */
  lemma {:induction false} ConnectionWasBrought(states: seq<History>, ops: seq<Op>, n: nat) returns (k: nat)
    requires Run(states, ops) && n <= |ops| && Conserves(states[0])
    requires !states[0].port.connected && states[n].port.connected
    ensures k < n && Brings(states[k].port, ops[k]) && forall j | k < j <= n :: states[j].port.connected
  {
    hide Conserves, Step, Brings, Allowed;
    assert n > 0;
    RunStep(states, ops, n - 1);
    StepOfConnection(states[n - 1], ops[n - 1]);
    if states[n - 1].port.connected {
      k := ConnectionWasBrought(states, ops, n - 1);
    } else {
      k := n - 1;
    }
  }

  /** And whoever waits has had a modem status response since it did not. */
  lemma {:induction false} WaitWasStarted(states: seq<History>, ops: seq<Op>, n: nat) returns (k: nat)
    requires Run(states, ops) && n <= |ops| && Conserves(states[0])
    requires !states[0].port.waiting && states[n].port.waiting
    ensures k < n && StartsWait(ops[k]) && forall j | k < j <= n :: states[j].port.waiting
  {
    hide Conserves, Step, StartsWait, Allowed;
    assert n > 0;
    RunStep(states, ops, n - 1);
    StepOfConnection(states[n - 1], ops[n - 1]);
    if states[n - 1].port.waiting {
      k := WaitWasStarted(states, ops, n - 1);
    } else {
      k := n - 1;
    }
  }
}
