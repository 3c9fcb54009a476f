/** The serial port as the class implements it, with its fixed buffers and byte
    indices. */
module SppPort {
  import opened Integers
  import opened RfcommFcs
  import opened Spp

  class SPP {
    const link: Link
    const sppOutputBuffer: array<uint8>
    const rfcommDataBuffer: array<uint8>
    const l2capoutbuf: array<uint8>
    const rfcommbuf: array<uint8>
    var connected: bool
    var rfcommChannelConnection: uint8
    var rfcommDirection: uint8
    var sppIndex: uint8
    var rfcommAvailable: uint8
    var bytesRead: uint8
    var waitForLastCommand: bool
    var creditSent: bool
    /** Packets handed to the dongle. */
    var sent: seq<Sent>

    ghost predicate Valid()
      reads this
    {
      && sppOutputBuffer.Length == rfcommDataBuffer.Length == CAPACITY && l2capoutbuf.Length == 64 && rfcommbuf.Length == 10
      && sppOutputBuffer != rfcommDataBuffer && l2capoutbuf != sppOutputBuffer && l2capoutbuf != rfcommDataBuffer
      && rfcommbuf != sppOutputBuffer && rfcommbuf != rfcommDataBuffer && rfcommbuf != l2capoutbuf
      && sppIndex <= CAPACITY && rfcommAvailable <= CAPACITY && bytesRead <= CAPACITY - 5
      && rfcommChannelConnection % 8 == 0 && (rfcommDirection == 0 || rfcommDirection == 4)
    }

    ghost function Value(): Port
      requires Valid()
      reads this, sppOutputBuffer, rfcommDataBuffer
    {
      Port(link, connected, rfcommChannelConnection, rfcommDirection, sppOutputBuffer[..sppIndex], sent,
           rfcommDataBuffer[..rfcommAvailable], bytesRead, creditSent, waitForLastCommand)
    }

    constructor (link: Link)
      ensures Valid() && Value() == Port(link, false, 0, 0, [], [], [], 0, false, false)
      ensures fresh(sppOutputBuffer) && fresh(rfcommDataBuffer) && fresh(l2capoutbuf) && fresh(rfcommbuf)
    {
      this.link := link;
      sppOutputBuffer, rfcommDataBuffer, l2capoutbuf := new uint8[100], new uint8[100], new uint8[64];
      rfcommbuf := new uint8[10];
      waitForLastCommand, creditSent := false, false;
      connected, rfcommChannelConnection, rfcommDirection := false, 0, 0;
      sppIndex, rfcommAvailable, bytesRead, sent := 0, 0, 0, [];
    }

    method L2CAPCommand(data: array<uint8>, nbytes: uint8, serial: bool)
      requires nbytes <= data.Length
      modifies this`sent
      ensures var packet := Packet(link, data[..nbytes]);
        sent == old(sent) + [if serial then Serial(packet) else Control(packet)]
    {
      var buf: seq<uint8> := [link.handle % 0x100, link.handle / 0x100 % 0x10 + 0x20,
        (nbytes as int + 4) % 0x100, (nbytes as int + 4) / 0x100, nbytes, 0, link.cidLow, link.cidHigh];
      sent := sent + [if serial then Serial(buf + data[..nbytes]) else Control(buf + data[..nbytes])];
    }

    /** One segment of the output buffer as a frame. */
    method SendSegment(length: uint8, offset: uint8)
      requires Valid() && length <= MAX_PAYLOAD && offset + length <= CAPACITY
      requires l2capoutbuf[0] == rfcommChannelConnection + 1 && l2capoutbuf[1] == UIH
      modifies this`sent, l2capoutbuf
      ensures l2capoutbuf[0] == rfcommChannelConnection + 1 && l2capoutbuf[1] == UIH
      ensures sent == old(sent) + [Serial(Packet(link, Frame(rfcommChannelConnection + 1, UIH, sppOutputBuffer[offset..offset + length])))]
    {
      hide Fcs, Packet;
      l2capoutbuf[2] := 2 * length + 1;
      var i: uint8 := 0;
      while i < length
        invariant i <= length
        invariant l2capoutbuf[0] == rfcommChannelConnection + 1 && l2capoutbuf[1] == UIH && l2capoutbuf[2] == 2 * length + 1
        invariant forall k | 3 <= k < 3 + i :: l2capoutbuf[k] == sppOutputBuffer[offset + (k - 3)]
        modifies l2capoutbuf
      {
        l2capoutbuf[i + 3] := sppOutputBuffer[i + offset];
        i := i + 1;
      }
      l2capoutbuf[i + 3] := Fcs(l2capoutbuf[0], l2capoutbuf[1], l2capoutbuf[2]);
      ghost var payload := sppOutputBuffer[offset..offset + length];
      assert l2capoutbuf[3..3 + length] == payload;
      assert l2capoutbuf[..length + 4] == l2capoutbuf[..3] + l2capoutbuf[3..3 + length] + [l2capoutbuf[length + 3]];
      assert l2capoutbuf[..length + 4] == Frame(rfcommChannelConnection + 1, UIH, payload);
      L2CAPCommand(l2capoutbuf, length + 4, true);
    }

    method Send()
      requires Valid()
      modifies this`sent, this`sppIndex, l2capoutbuf
      ensures Valid() && Value() == Flushed(old(Value()))
    {
      hide Frame, Packet, Segments;
      ghost var pending := sppOutputBuffer[..sppIndex];
      if !connected || sppIndex == 0 {
        NoSegments(link, rfcommChannelConnection + 1);
        return;
      }
      var offset: uint8 := 0;
      l2capoutbuf[0] := rfcommChannelConnection + 1;
      l2capoutbuf[1] := UIH;
      ghost var all := Segments(link, rfcommChannelConnection + 1, pending);
      NoSegments(link, rfcommChannelConnection + 1);
      ghost var rest, whole := all, sppOutputBuffer[..];
      assert pending[0..] == pending && pending == whole[..|pending|];
      while sppIndex > 0
        invariant sppOutputBuffer[..] == whole
        invariant offset + sppIndex == |pending|
        invariant l2capoutbuf[0] == rfcommChannelConnection + 1 && l2capoutbuf[1] == UIH
        invariant rest == Segments(link, rfcommChannelConnection + 1, pending[offset..]) && sent + rest == old(sent) + all
      {
        ghost var before := sent;
        var length := if sppIndex > 64 - 4 then 64 - 4 else sppIndex;
        NextSegment(link, rfcommChannelConnection + 1, pending, offset, length);
        SliceOfPrefix(whole, |pending|, offset, offset + length);
        assert sppOutputBuffer[offset..offset + length] == whole[offset..offset + length];
        SendSegment(length, offset);
        assert before + rest == sent + rest[1..] by {
          assert rest == [rest[0]] + rest[1..];
        }
        rest := rest[1..];
        sppIndex := sppIndex - length;
        offset := offset + length;
      }
      assert pending[offset..] == [] && sppOutputBuffer[..0] == [];
    }

    method Write(data: seq<uint8>) returns (size: nat)
      requires Valid() && Writable(Value(), data)
      modifies this`sent, this`sppIndex, sppOutputBuffer, l2capoutbuf
      ensures Valid() && Value() == Written(old(Value()), data) && size == |data|
    {
      hide Flushed, Segments;
      ghost var before := Value();
      var i := 0;
      assert data[..0] == [];
      while i < |data|
        invariant i <= |data| && Valid() && Value() == Written(before, data[..i])
        invariant !connected ==> sppIndex + (|data| - i) <= CAPACITY
      {
        assert data[..i + 1][..i] == data[..i];
        if sppIndex >= CAPACITY {
          Send();
          ConnectedFlushEmpties(Written(before, data[..i]));
        }
        ghost var pending := sppOutputBuffer[..sppIndex];
        sppOutputBuffer[sppIndex] := data[i];
        sppIndex := sppIndex + 1;
        assert sppOutputBuffer[..sppIndex] == pending + [data[i]];
        i := i + 1;
      }
      assert data[..i] == data;
      size := |data|;
    }

    method SendRfcommCredit(address: uint8, control: uint8, credit: uint8)
      requires Valid()
      modifies this`sent, l2capoutbuf
      ensures sent == old(sent) + [Control(Packet(link, CreditFrame(address, control, credit, [])))]
    {
      hide Fcs, Packet;
      l2capoutbuf[0] := address;
      l2capoutbuf[1] := control;
      l2capoutbuf[2] := 0x01;
      l2capoutbuf[3] := credit;
      l2capoutbuf[4] := Fcs(l2capoutbuf[0], l2capoutbuf[1], l2capoutbuf[2]);
      assert l2capoutbuf[..5] == CreditFrame(address, control, credit, []);
      L2CAPCommand(l2capoutbuf, 5, false);
    }

    /** Shifts the receive buffer one to the left. */
    method ShiftLeft()
      requires Valid() && rfcommAvailable > 0
      modifies rfcommDataBuffer
      ensures rfcommDataBuffer[..rfcommAvailable - 1] == old(rfcommDataBuffer[1..rfcommAvailable])
    {
      var i: uint8 := 1;
      while i < rfcommAvailable
        invariant 1 <= i <= rfcommAvailable
        invariant forall k | 0 <= k < CAPACITY :: rfcommDataBuffer[k] == old(rfcommDataBuffer[if k < i - 1 then k + 1 else k])
        modifies rfcommDataBuffer
      {
        rfcommDataBuffer[i - 1] := rfcommDataBuffer[i];
        i := i + 1;
      }
    }

    /** Returns -1 when there is nothing to read. */
    method Read() returns (output: int)
      requires Valid()
      modifies this`rfcommAvailable, this`bytesRead, this`sent, rfcommDataBuffer, l2capoutbuf
      ensures Valid() && (Value(), output) == ReadOne(old(Value()))
    {
      hide Packet, CreditFrame;
      if rfcommAvailable == 0 {
        return -1;
      }
      ghost var buffered := rfcommDataBuffer[..rfcommAvailable];
      output := rfcommDataBuffer[0];
      ShiftLeft();
      rfcommAvailable := rfcommAvailable - 1;
      assert rfcommDataBuffer[..rfcommAvailable] == buffered[1..];
      bytesRead := bytesRead + 1;
      if bytesRead > CAPACITY - 5 {
        bytesRead := 0;
        SendRfcommCredit(rfcommChannelConnection + rfcommDirection + 1, 0xFF, CAPACITY);
      }
    }

    /** Copies m[at..at + length] behind what the buffer holds, as far as it
        goes. */
    method Store(m: seq<uint8>, at: nat, length: uint8) returns (i: uint8)
      requires Valid() && at + length <= |m|
      modifies rfcommDataBuffer
      ensures i <= length && rfcommAvailable + i <= CAPACITY && (i == length || rfcommAvailable + i == CAPACITY)
      ensures forall k | 0 <= k < rfcommAvailable :: rfcommDataBuffer[k] == old(rfcommDataBuffer[k])
      ensures forall k | rfcommAvailable <= k < rfcommAvailable + i :: rfcommDataBuffer[k] == m[at + (k - rfcommAvailable)]
    {
      i := 0;
      while i < length
        invariant i <= length && rfcommAvailable + i <= CAPACITY
        invariant forall k | 0 <= k < rfcommAvailable :: rfcommDataBuffer[k] == old(rfcommDataBuffer[k])
        invariant forall k | rfcommAvailable <= k < rfcommAvailable + i :: rfcommDataBuffer[k] == m[at + (k - rfcommAvailable)]
        modifies rfcommDataBuffer
      {
        if rfcommAvailable + i >= rfcommDataBuffer.Length {
          break;
        }
        rfcommDataBuffer[rfcommAvailable + i] := m[i + at];
        i := i + 1;
      }
    }

    /** The data branch of ACLData: takes what fits of a frame that checks. */
    method TakeData(m: seq<uint8>)
      requires Valid() && |m| >= REACH
      modifies this`rfcommAvailable, rfcommDataBuffer
      ensures Valid()
      ensures Value() == old(Value()).(buffered := old(Value()).buffered + Kept(old(Value()).buffered, Payload(m)))
    {
      hide FcsOk;
      ghost var buffered := rfcommDataBuffer[..rfcommAvailable];
      var length: uint8 := m[10] / 2;
      var offset: uint8 := (m[4] - length - 4) % 0x100;
      ghost var kept := Kept(buffered, Payload(m));
      if FcsOk(m[8], m[9], m[10], m[11 + length + offset]) {
        var i := Store(m, 11 + offset, length);
        assert i == |kept| && forall k | 0 <= k < i :: kept[k] == m[11 + offset + k];
        rfcommAvailable := rfcommAvailable + i;
        assert forall k | 0 <= k < i :: rfcommDataBuffer[|buffered| + k] == kept[k];
      } else {
        assert kept == [];
      }
      assert rfcommDataBuffer[..rfcommAvailable] == buffered + kept;
    }

    /** A frame with the first bytes of `data`, or with none. */
    method SendRfcomm(address: uint8, control: uint8, data: array<uint8>, length: uint8)
      requires Valid() && length <= data.Length && length <= MAX_PAYLOAD && data != l2capoutbuf
      modifies this`sent, l2capoutbuf
      ensures sent == old(sent) + [Control(Packet(link, Frame(address, control, data[..length])))]
    {
      hide Fcs, Packet;
      l2capoutbuf[0] := address;
      l2capoutbuf[1] := control;
      l2capoutbuf[2] := 2 * length + 1;
      var i: uint8 := 0;
      while i < length
        invariant i <= length
        invariant l2capoutbuf[0] == address && l2capoutbuf[1] == control && l2capoutbuf[2] == 2 * length + 1
        invariant forall k | 3 <= k < 3 + i :: l2capoutbuf[k] == data[k - 3]
        modifies l2capoutbuf
      {
        l2capoutbuf[i + 3] := data[i];
        i := i + 1;
      }
      l2capoutbuf[i + 3] := Fcs(l2capoutbuf[0], l2capoutbuf[1], l2capoutbuf[2]);
      forall k | 0 <= k < length
        ensures l2capoutbuf[3..3 + length][k] == data[..length][k]
      {
        assert l2capoutbuf[3 + k] == data[(3 + k) - 3];
      }
      assert l2capoutbuf[3..3 + length] == data[..length];
      assert l2capoutbuf[..length + 4] == l2capoutbuf[..3] + l2capoutbuf[3..3 + length] + [l2capoutbuf[length + 3]];
      assert l2capoutbuf[..length + 4] == Frame(address, control, data[..length]);
      L2CAPCommand(l2capoutbuf, length + 4, false);
    }

    /** A multiplexer message of up to ten bytes, put together in rfcommbuf. */
    method SendReply(m: seq<uint8>, payload: seq<uint8>)
      requires Valid() && |m| > 10 && |payload| <= 10
      modifies this`sent, rfcommbuf, l2capoutbuf
      ensures sent == old(sent) + [Reply(old(Value()), m, payload)]
    {
      hide Packet, Frame;
      forall k | 0 <= k < |payload| {
        rfcommbuf[k] := payload[k];
      }
      assert rfcommbuf[..|payload|] == payload;
      SendRfcomm(m[8] / 4 * 4 + 1, UIH + PfBit(m), rfcommbuf, |payload|);
    }

    method SendAcknowledgement(m: seq<uint8>)
      requires Valid() && |m| > 10
      modifies this`sent, l2capoutbuf
      ensures sent == old(sent) + [Acknowledgement(old(Value()), m)]
    {
      hide Packet, Frame;
      assert rfcommbuf[..0] == [];
      SendRfcomm(m[8] / 2 * 2 + 1, UA + PfBit(m), rfcommbuf, 0);
    }

    method Establish()
      requires Valid()
      modifies this`waitForLastCommand, this`creditSent, this`connected, this`sppIndex
      ensures Valid() && Value() == Established(old(Value()))
    {
      waitForLastCommand := false;
      creditSent := false;
      connected := true;
      sppIndex := 0;
    }

    /** The multiplexer commands on a connection. */
    method AnswerConnected(m: seq<uint8>)
      requires Valid() && |m| >= REACH && connected
      modifies this`sent, rfcommbuf, l2capoutbuf
      ensures Valid() && Value() == Multiplexed(old(Value()), m)
    {
      hide Reply;
      var uih := ChannelType(m[9]) == UIH;
      if uih && m[11] == RPN_CMD {
        SendReply(m, PortNegotiationReply(m));
      } else if uih && m[11] == MSC_CMD {
        SendReply(m, ModemStatusReply(m));
      }
    }

    /** The multiplexer commands that lead to a connection. */
    method AnswerConnecting(m: seq<uint8>)
      requires Valid() && |m| >= REACH && !connected
      modifies this`sent, this`waitForLastCommand, this`creditSent, this`connected, this`sppIndex, rfcommbuf, l2capoutbuf
      ensures Valid() && Value() == Multiplexed(old(Value()), m)
    {
      hide Frame, CreditFrame, Packet;
      ghost var before := sent;
      var uih := ChannelType(m[9]) == UIH;
      if ChannelType(m[9]) == SABM {
        SendAcknowledgement(m);
      } else if uih && m[11] == PN_CMD {
        SendReply(m, ParameterReply(m));
      } else if uih && m[11] == MSC_CMD {
        SendReply(m, ModemStatusReply(m));
        SendReply(m, ModemStatusCommand(m));
        assert sent == before + [Reply(old(Value()), m, ModemStatusReply(m)), Reply(old(Value()), m, ModemStatusCommand(m))];
      } else if uih && m[11] == MSC_RSP {
        if !creditSent {
          SendRfcommCredit(rfcommChannelConnection + rfcommDirection + 1, 0xFF, CAPACITY);
          creditSent := true;
          waitForLastCommand := true;
        }
      } else if uih && m[10] == 0x01 {
      } else if uih && m[11] == RPN_CMD {
        SendReply(m, PortNegotiationReply(m));
        Establish();
      }
    }

    /** The RFCOMM part of ACLData. */
    method ReceiveRfcomm(m: seq<uint8>)
      requires Valid() && |m| >= REACH
      modifies this`connected, this`rfcommChannelConnection, this`rfcommDirection, this`rfcommAvailable, this`sent,
        this`waitForLastCommand, this`creditSent, this`sppIndex, rfcommDataBuffer, rfcommbuf, l2capoutbuf
      ensures Valid() && Value() == Received(old(Value()), m)
    {
      hide Payload, Frame, Packet, Multiplexed;
      var rfcommChannel: uint8 := m[8] / 8 * 8;
      var rfcommChannelType := ChannelType(m[9]);
      rfcommDirection := m[8] / 4 % 2 * 4;
      if rfcommChannel / 8 != 0 {
        rfcommChannelConnection := rfcommChannel;
      }
      ghost var a := Value();
      if rfcommChannelType == DISC {
        connected := false;
        SendAcknowledgement(m);
        NothingForDisconnect(Value(), m);
      }
      if connected {
        if rfcommChannelType == UIH && rfcommChannel == rfcommChannelConnection {
          TakeData(m);
        } else {
          AnswerConnected(m);
        }
      } else {
        AnswerConnecting(m);
      }
    }

    method Run(elapsed: bool)
      requires Valid()
      modifies this`sent, this`waitForLastCommand, this`creditSent, this`connected, this`sppIndex, l2capoutbuf
      ensures Valid() && Value() == Serviced(old(Value()), elapsed)
    {
      hide Flushed;
      if waitForLastCommand && elapsed {
        Establish();
      }
      Send();
    }
  }

  lemma NothingForDisconnect(a: Port, m: seq<uint8>)
    requires |m| >= REACH && Sound(a) && ChannelType(m[9]) == DISC
    ensures Multiplexed(a, m) == a
  {
  }

  lemma SliceOfPrefix(s: seq<uint8>, n: nat, from: nat, upto: nat)
    requires from <= upto <= n <= |s|
    ensures s[..n][from..upto] == s[from..upto]
  {
  }

  lemma NoSegments(link: Link, address: uint8)
    ensures Segments(link, address, []) == []
  {
  }

  lemma NextSegment(link: Link, address: uint8, bytes: seq<uint8>, offset: nat, length: nat)
    requires offset < |bytes| && length == if |bytes| - offset > MAX_PAYLOAD then MAX_PAYLOAD else |bytes| - offset
    ensures Segments(link, address, bytes[offset..])
         == [Serial(Packet(link, Frame(address, UIH, bytes[offset..offset + length])))] + Segments(link, address, bytes[offset + length..])
  {
    hide Packet, Frame;
    assert bytes[offset..][..length] == bytes[offset..offset + length];
    assert bytes[offset..][length..] == bytes[offset + length..];
  }

  lemma ConnectedFlushEmpties(s: Port)
    requires s.channel % 8 == 0
    ensures s.connected ==> Flushed(s).pending == []
  {
  }
}
