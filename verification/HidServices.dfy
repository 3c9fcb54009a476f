/** The HID services as objects that share a dongle: the two tasks and the
    packet handler of BTHID.cpp, Wii.cpp and PS3BT.cpp, and what a cooperative
    device brings them to. */
module HidServices {
  import opened Integers
  import opened HidMachine

  class Btd {
    var l2capConnectionClaimed: bool
    var hciHandle: uint16
    var remoteName: uint8
    var connectToHIDDevice: bool
    var incomingHIDDevice: bool
    var pairWithHIDDevice: bool
    var connectToWii: bool
    var incomingWii: bool
    var pairWithWii: bool

    ghost function Value(): Dongle
      reads this
    {
      Dongle(l2capConnectionClaimed, hciHandle, remoteName, connectToHIDDevice, incomingHIDDevice, pairWithHIDDevice,
             connectToWii, incomingWii, pairWithWii)
    }
  }

  class HidService {
    const kind: Kind
    const pBtd: Btd
    var l2capState: L2capState
    var l2capEventFlag: set<Flag>
    var hciHandle: uint16
    var identifier: uint8
    var controlScid: Cid
    var interruptScid: Cid
    var activeConnection: bool
    var connected: bool
    var remoteName: uint8
    var stateCounter: uint16
    var log: Log

    ghost function Value(): Service
      reads this
    {
      Service(kind, l2capState, l2capEventFlag, hciHandle, identifier, controlScid, interruptScid, activeConnection,
              connected, remoteName, stateCounter, log)
    }

    /** The fields the constructor leaves alone start with any values. */
    constructor (kind: Kind, dongle: Btd, pair: bool, garbage: Service)
      modifies dongle
      ensures pBtd == dongle && Value() == ResetBy(garbage.(kind := kind, log := []), ByReset)
      ensures dongle.Value() ==
        match kind
        case Bthid => old(dongle.Value()).(pairWithHid := pair)
        case Wii => old(dongle.Value()).(pairWithWii := pair)
        case Ps3 => old(dongle.Value())
    {
      this.kind, pBtd := kind, dongle;
      hciHandle, identifier, controlScid, interruptScid := garbage.handle, garbage.identifier, garbage.controlScid, garbage.interruptScid;
      remoteName, stateCounter, log := garbage.remoteName, garbage.stateCounter, [];
      l2capState, l2capEventFlag, activeConnection, connected := Wait, {}, false, false;
      new;
      match kind {
        case Bthid => dongle.pairWithHIDDevice := pair;
        case Wii => dongle.pairWithWii := pair;
        case Ps3 =>
      }
      Reset(ByReset);
    }

    method Record(e: Event)
      modifies this`log
      ensures Value() == Emit(old(Value()), e)
    {
      log := log + [e];
    }

    method Reset(why: Clear)
      modifies this
      ensures Value() == ResetBy(old(Value()), why)
    {
      connected := false;
      activeConnection := false;
      l2capEventFlag := {};
      l2capState := Wait;
      Record(Cleared(why));
    }

    method Disconnect()
      modifies this
      ensures Value() == Disconnected(old(Value()))
    {
      identifier := Next(identifier);
      Record(DisconnectRequestSent(Interrupt));
      Reset(ByDisconnect);
      l2capState := InterruptDisconnect;
    }

    /** Answers an incoming connection and asks for its configuration. */
    method AcceptChannel(channel: Channel, next: L2capState)
      modifies this
      ensures Value() == Accept(old(Value()), channel, next)
    {
      Record(ConnectionResponseSent(channel));
      Record(ConnectionResponseSent(channel));
      identifier := Next(identifier);
      Record(ConfigRequestSent(channel));
      l2capState := next;
    }

    method SetScid(channel: Channel, scid: Cid)
      modifies this`controlScid, this`interruptScid
      ensures Value() == WithScid(old(Value()), channel, scid)
    {
      if channel == Control {
        controlScid := scid;
      } else {
        interruptScid := scid;
      }
    }

    method HandleSignal(signal: Signal)
      modifies this
      ensures Value() == OnSignal(old(Value()), signal)
    {
      hide ResetBy, ClearFlags;
      match signal
      case Ignored =>
      case GotConnectionResponse(c, id, scid) =>
        identifier := id;
        SetScid(c, scid);
        l2capEventFlag := l2capEventFlag + {ChannelConnected(c)};
      case GotConnectionRequest(c, id, scid) =>
        identifier := id;
        SetScid(c, scid);
        l2capEventFlag := l2capEventFlag + {ConnectionRequested(c)};
      case GotConfigResponse(c, id) =>
        if kind != Ps3 {
          identifier := id;
        }
        l2capEventFlag := l2capEventFlag + {ConfigSucceeded(c)};
        Record(ConfigResponse(c));
      case GotConfigRequest(c) =>
        Record(ConfigResponseSent(c));
      case GotDisconnectRequest(c, id) =>
        identifier := id;
        Record(DisconnectResponseSent(c));
        Reset(ByReset);
      case GotDisconnectResponse(c, id) =>
        identifier := id;
        l2capEventFlag := l2capEventFlag + {DisconnectAnswered(c)};
        Record(DisconnectResponse(c));
      case GotInactiveMotionPlus =>
        stateCounter := 300;
    }

    /** Reads the signalling command out of the packet. */
    method ReadSignal(b: Buffer) returns (signal: Signal)
      ensures signal == Decode(Value(), b)
    {
      if b[6] as int + 0x100 * b[7] as int != 1 {
        if kind == Wii && b[6] == 0x61 && b[7] == 0 {
          signal := ReadReport(b);
          return;
        }
        return Ignored;
      }
      var ours, psm := Cid(b[12], b[13]), b[12] as int + 0x100 * b[13] as int;
      if b[8] == CONNECTION_RESPONSE && kind != Ps3 {
        if b[16] as int + 0x100 * b[17] as int == 0 && b[18] as int + 0x100 * b[19] as int == 0 {
          if Cid(b[14], b[15]) == Dcid(kind, Control) {
            return GotConnectionResponse(Control, b[9], ours);
          } else if Cid(b[14], b[15]) == Dcid(kind, Interrupt) {
            return GotConnectionResponse(Interrupt, b[9], ours);
          }
        }
      } else if b[8] == CONNECTION_REQUEST {
        if psm == HID_CTRL_PSM {
          return GotConnectionRequest(Control, b[9], Cid(b[14], b[15]));
        } else if psm == HID_INTR_PSM {
          return GotConnectionRequest(Interrupt, b[9], Cid(b[14], b[15]));
        }
      } else if b[8] == CONFIG_RESPONSE {
        if b[16] as int + 0x100 * b[17] as int == 0 {
          if ours == Dcid(kind, Control) {
            return GotConfigResponse(Control, b[9]);
          } else if ours == Dcid(kind, Interrupt) {
            return GotConfigResponse(Interrupt, b[9]);
          }
        }
      } else if b[8] == CONFIG_REQUEST {
        if ours == Dcid(kind, Control) {
          return GotConfigRequest(Control);
        } else if ours == Dcid(kind, Interrupt) {
          return GotConfigRequest(Interrupt);
        }
      } else if b[8] == DISCONNECT_REQUEST {
        if ours == Dcid(kind, Control) {
          return GotDisconnectRequest(Control, b[9]);
        } else if ours == Dcid(kind, Interrupt) {
          return GotDisconnectRequest(Interrupt, b[9]);
        }
      } else if b[8] == DISCONNECT_RESPONSE {
        if ours == controlScid {
          return GotDisconnectResponse(Control, b[9]);
        } else if ours == interruptScid {
          return GotDisconnectResponse(Interrupt, b[9]);
        }
      }
      return Ignored;
    }

    method ReadReport(b: Buffer) returns (signal: Signal)
      ensures signal == if InactiveMotionPlus(b) then GotInactiveMotionPlus else Ignored
    {
      if b[8] == 0xA1 && b[9] == 0x21 && b[12] % 0x10 == 0 {
        if b[16] == 0 && (b[17] == 0xA6 || b[17] == 0xA4) && b[18] == 0x20 && b[19] == 0 && b[20] == 5 {
          return Ignored;
        } else if b[16] == 0 && b[17] == 0xA6 && b[18] == 0x20 && (b[19] == 0 || b[19] == 4 || b[19] == 5 || b[19] == 7) && b[20] == 5 {
          return GotInactiveMotionPlus;
        }
      }
      return Ignored;
    }

    method L2CAPTask(elapsed: bool)
      modifies this, pBtd
      ensures (Value(), pBtd.Value()) == Task(old(Value()), old(pBtd.Value()), elapsed)
    {
      match l2capState
      case Wait =>
        if kind == Ps3 && ConnectionRequested(Control) in l2capEventFlag {
          AcceptChannel(Control, ControlSuccess);
        }
      case ControlSuccess =>
        if ConfigSucceeded(Control) in l2capEventFlag {
          l2capState := InterruptSetup;
        }
      case InterruptSetup =>
        if ConnectionRequested(Interrupt) in l2capEventFlag {
          AcceptChannel(Interrupt, InterruptConfigRequest);
        }
      case ControlConnectRequest =>
        if kind != Ps3 && ChannelConnected(Control) in l2capEventFlag {
          identifier := Next(identifier);
          Record(ConfigRequestSent(Control));
          l2capState := ControlConfigRequest;
        }
      case ControlConfigRequest =>
        if kind != Ps3 && ConfigSucceeded(Control) in l2capEventFlag {
          identifier := Next(identifier);
          Record(ConnectionRequestSent(Interrupt));
          l2capState := InterruptConnectRequest;
        }
      case InterruptConnectRequest =>
        if kind != Ps3 && ChannelConnected(Interrupt) in l2capEventFlag {
          identifier := Next(identifier);
          Record(ConfigRequestSent(Interrupt));
          l2capState := InterruptConfigRequest;
        }
      case InterruptConfigRequest =>
        if ConfigSucceeded(Interrupt) in l2capEventFlag {
          FinishChannels();
        }
      case InterruptDisconnect =>
        if DisconnectAnswered(Interrupt) in l2capEventFlag && (kind != Wii || elapsed) {
          identifier := Next(identifier);
          Record(DisconnectRequestSent(Control));
          l2capState := ControlDisconnect;
        }
      case ControlDisconnect =>
        if DisconnectAnswered(Control) in l2capEventFlag {
          Record(HciDisconnectSent);
          hciHandle := 0xFFFF;
          l2capEventFlag := {};
          Record(Cleared(ByHciDisconnect));
          l2capState := Wait;
        }
      case _ =>
    }

    method FinishChannels()
      modifies this, pBtd
      ensures (Value(), pBtd.Value()) == Established(old(Value()), old(pBtd.Value()))
    {
      match kind
      case Bthid =>
        pBtd.connectToHIDDevice := false;
        pBtd.pairWithHIDDevice := false;
        connected := true;
        Record(BecameConnected);
        l2capState := Done;
      case Wii =>
        pBtd.connectToWii := false;
        pBtd.pairWithWii := false;
        stateCounter := 0;
        l2capState := CheckMotionPlus;
      case Ps3 =>
        if remoteName == 'M' as int {
          l2capState := TurnOnLed;
        } else {
          l2capState := EnableSixaxis;
        }
    }

    /** The incoming connection belongs to this service from now on. */
    method ClaimIncoming()
      modifies this, pBtd
      ensures (Value(), pBtd.Value()) == Claim(old(Value()), old(pBtd.Value()))
    {
      if kind == Bthid {
        pBtd.incomingHIDDevice := false;
      } else if kind == Wii {
        pBtd.incomingWii := false;
      } else {
        remoteName := pBtd.remoteName;
      }
      pBtd.l2capConnectionClaimed := true;
      activeConnection := true;
      hciHandle := pBtd.hciHandle;
      l2capState := Wait;
      Record(ClaimedConnection);
    }

    method WantsIncoming(b: Buffer) returns (claims: bool)
      ensures claims == ClaimsOn(Value(), pBtd.Value(), b)
    {
      var free := !pBtd.l2capConnectionClaimed && !connected && !activeConnection;
      var expected :=
        match kind
        case Bthid => pBtd.incomingHIDDevice
        case Wii => pBtd.incomingWii
        case Ps3 => !pBtd.connectToWii && !pBtd.incomingWii && !pBtd.pairWithWii;
      claims := free && expected && b[8] == CONNECTION_REQUEST && b[12] as int + 0x100 * b[13] as int == HID_CTRL_PSM;
    }

    method ACLData(b: Buffer, elapsed: bool)
      modifies this, pBtd
      ensures (Value(), pBtd.Value()) == Acl(old(Value()), old(pBtd.Value()), b, elapsed)
    {
      hide Decode, OnSignal, Task, Claim, ClaimsOn;
      var claims := WantsIncoming(b);
      if claims {
        ClaimIncoming();
      }
      if HandleOk(hciHandle, b) {
        var signal := ReadSignal(b);
        HandleSignal(signal);
        L2CAPTask(elapsed);
      }
    }

    method Run(e: Surroundings)
      modifies this, pBtd
      ensures (Value(), pBtd.Value()) == HidMachine.Run(old(Value()), old(pBtd.Value()), e)
    {
      hide Task;
      if kind == Wii && l2capState == InterruptDisconnect && e.elapsed {
        L2CAPTask(true);
      }
      if l2capState == Wait {
        WaitForConnection();
      } else if kind != Bthid {
        SetUp(e);
      }
    }

    method WaitForConnection()
      requires l2capState == Wait
      modifies this, pBtd
      ensures (Value(), pBtd.Value()) == RunWait(old(Value()), old(pBtd.Value()))
    {
      hide ClaimAndConnect, Accept;
      var wanted := match kind case Bthid => pBtd.connectToHIDDevice case Wii => pBtd.connectToWii case Ps3 => false;
      if wanted && !pBtd.l2capConnectionClaimed && !connected && !activeConnection {
        StartConnecting();
      } else if kind != Ps3 && ConnectionRequested(Control) in l2capEventFlag {
        AcceptChannel(Control, ControlSuccess);
      }
    }

    method StartConnecting()
      modifies this, pBtd
      ensures (Value(), pBtd.Value()) == ClaimAndConnect(old(Value()), old(pBtd.Value()))
    {
      pBtd.l2capConnectionClaimed := true;
      activeConnection := true;
      Record(ClaimedConnection);
      hciHandle := pBtd.hciHandle;
      l2capEventFlag := {};
      Record(Cleared(ByConnecting));
      identifier := 0;
      Record(ConnectionRequestSent(Control));
      l2capState := ControlConnectRequest;
    }

    method SetUp(e: Surroundings)
      modifies this
      ensures Value() == RunSetup(old(Value()), e)
    {
      match l2capState
      case CheckMotionPlus =>
        stateCounter := (stateCounter + 1) % 0x1_0000;
        if e.motionPlus {
          stateCounter := 0;
          l2capState := InitMotionPlus;
        } else if stateCounter == 601 {
          stateCounter := 0;
          l2capState := CheckExtension;
        }
      case CheckExtension =>
        stateCounter := (stateCounter + 1) % 0x1_0000;
        if stateCounter == 100 {
          if !e.unknownExtension {
            stateCounter := 399;
          }
        } else if stateCounter == 400 {
          stateCounter := 0;
          l2capState := TurnOnLed;
        }
      case InitMotionPlus =>
        stateCounter := (stateCounter + 1) % 0x1_0000;
        if stateCounter == 300 {
          stateCounter := 0;
          l2capState := TurnOnLed;
        }
      case EnableSixaxis =>
        if e.elapsed {
          l2capState := TurnOnLed;
        }
      case TurnOnLed =>
        if kind == Wii || e.elapsed {
          if kind == Wii || remoteName == 'P' as int || remoteName == 'N' as int || remoteName == 'M' as int {
            connected := true;
            Record(BecameConnected);
          }
          l2capState := Done;
        }
      case _ =>
    }
  }

  // ----- a device that answers

  /** What a packet says does not depend on the service's state, but for the
      channels of a disconnect response. */
  lemma DecodeByKind(s: Service, s': Service, b: Buffer)
    requires s.kind == s'.kind && !Decode(s, b).GotDisconnectResponse?
    ensures Decode(s', b) == Decode(s, b) || Decode(s', b).GotDisconnectResponse?
    ensures !Decode(s, b).Ignored? ==> Decode(s', b) == Decode(s, b)
  {
  }

  /** A packet on a service's own connection. */
  lemma Hears(s: Service, d: Dongle, b: Buffer, elapsed: bool)
    requires s.active && HandleOk(s.handle, b)
    ensures Acl(s, d, b, elapsed) == Task(OnSignal(s, Decode(s, b)), d, elapsed)
  {
    hide Decode, OnSignal, Task, HandleOk;
  }

  /** Through its channels: connected, or on to what its kind still has to do. */
  predicate ChannelsUp(s: Service) {
    match s.kind
    case Bthid => s.connected && s.state == Done
    case Wii => s.state == CheckMotionPlus && s.stateCounter == 0
    case Ps3 => s.state == if s.remoteName == 'M' as int then TurnOnLed else EnableSixaxis
  }

  /** The dongle has stopped connecting to and pairing with such a device. */
  predicate NoLongerSought(kind: Kind, d: Dongle) {
    match kind
    case Bthid => !d.connectToHid && !d.pairWithHid
    case Wii => !d.connectToWii && !d.pairWithWii
    case Ps3 => true
  }

  /** A connection this side asks for comes up when the device answers the four
      requests in turn, whatever identifiers and channels it uses. */
  lemma HostHandshakeCompletes(s: Service, d: Dongle, e: Surroundings, b: seq<Buffer>, elapsed: seq<bool>, id: seq<uint8>,
                               control: Cid, interrupt: Cid)
    requires ClaimsInRun(s, d) && |b| == |elapsed| == |id| == 4 && forall k | 0 <= k < 4 :: HandleOk(d.handle, b[k])
    requires Decode(s, b[0]) == GotConnectionResponse(Control, id[0], control) && Decode(s, b[1]) == GotConfigResponse(Control, id[1])
    requires Decode(s, b[2]) == GotConnectionResponse(Interrupt, id[2], interrupt) && Decode(s, b[3]) == GotConfigResponse(Interrupt, id[3])
    ensures var (s0, d0) := HidMachine.Run(s, d, e);
      var (s1, d1) := Acl(s0, d0, b[0], elapsed[0]);
      var (s2, d2) := Acl(s1, d1, b[1], elapsed[1]);
      var (s3, d3) := Acl(s2, d2, b[2], elapsed[2]);
      var (s4, d4) := Acl(s3, d3, b[3], elapsed[3]);
      ChannelsUp(s4) && s4.controlScid == control && s4.interruptScid == interrupt && NoLongerSought(s.kind, d4)
  {
    hide Decode, HandleOk, Acl, ChannelsUp;
    var (s0, d0) := HidMachine.Run(s, d, e);
    DecodeByKind(s, s0, b[0]);
    OpensControl(s0, d0, b[0], elapsed[0], id[0], control);
    var (s1, d1) := Acl(s0, d0, b[0], elapsed[0]);
    DecodeByKind(s, s1, b[1]);
    ConfiguresControl(s1, d1, b[1], elapsed[1], id[1]);
    var (s2, d2) := Acl(s1, d1, b[1], elapsed[1]);
    DecodeByKind(s, s2, b[2]);
    OpensInterrupt(s2, d2, b[2], elapsed[2], id[2], interrupt);
    var (s3, d3) := Acl(s2, d2, b[2], elapsed[2]);
    DecodeByKind(s, s3, b[3]);
    ConfiguresInterrupt(s3, d3, b[3], elapsed[3], id[3]);
  }

  /** What a handshake leaves alone. */
  predicate SameConnection(s: Service, s': Service) {
    s'.kind == s.kind && s'.handle == s.handle && s'.active && s'.remoteName == s.remoteName
  }

  lemma OpensControl(s: Service, d: Dongle, b: Buffer, elapsed: bool, id: uint8, scid: Cid)
    requires s.kind != Ps3 && s.active && HandleOk(s.handle, b) && s.state == ControlConnectRequest
    requires Decode(s, b) == GotConnectionResponse(Control, id, scid)
    ensures var (s', d') := Acl(s, d, b, elapsed);
      s'.state == ControlConfigRequest && SameConnection(s, s') && s'.controlScid == scid
  {
    hide Decode, HandleOk, Acl;
    Hears(s, d, b, elapsed);
  }

  lemma ConfiguresControl(s: Service, d: Dongle, b: Buffer, elapsed: bool, id: uint8)
    requires s.kind != Ps3 && s.active && HandleOk(s.handle, b) && s.state == ControlConfigRequest
    requires Decode(s, b) == GotConfigResponse(Control, id)
    ensures var (s', d') := Acl(s, d, b, elapsed);
      s'.state == InterruptConnectRequest && SameConnection(s, s') && s'.controlScid == s.controlScid
  {
    hide Decode, HandleOk, Acl;
    Hears(s, d, b, elapsed);
  }

  lemma OpensInterrupt(s: Service, d: Dongle, b: Buffer, elapsed: bool, id: uint8, scid: Cid)
    requires s.kind != Ps3 && s.active && HandleOk(s.handle, b) && s.state == InterruptConnectRequest
    requires Decode(s, b) == GotConnectionResponse(Interrupt, id, scid)
    ensures var (s', d') := Acl(s, d, b, elapsed);
      s'.state == InterruptConfigRequest && SameConnection(s, s') && s'.controlScid == s.controlScid && s'.interruptScid == scid
  {
    hide Decode, HandleOk, Acl;
    Hears(s, d, b, elapsed);
  }

  lemma AcceptsInterrupt(s: Service, d: Dongle, b: Buffer, elapsed: bool, id: uint8, scid: Cid)
    requires s.active && HandleOk(s.handle, b) && s.state == InterruptSetup
    requires Decode(s, b) == GotConnectionRequest(Interrupt, id, scid)
    ensures var (s', d') := Acl(s, d, b, elapsed);
      s'.state == InterruptConfigRequest && SameConnection(s, s') && s'.controlScid == s.controlScid && s'.interruptScid == scid
  {
    hide Decode, HandleOk, Acl;
    Hears(s, d, b, elapsed);
  }

  /** The last answer brings the channels up. */
  lemma ConfiguresInterrupt(s: Service, d: Dongle, b: Buffer, elapsed: bool, id: uint8)
    requires s.active && HandleOk(s.handle, b) && s.state == InterruptConfigRequest
    requires Decode(s, b) == GotConfigResponse(Interrupt, id)
    ensures var (s', d') := Acl(s, d, b, elapsed);
      && ChannelsUp(s') && SameConnection(s, s') && NoLongerSought(s.kind, d')
      && s'.controlScid == s.controlScid && s'.interruptScid == s.interruptScid
  {
    hide Decode, HandleOk, Acl;
    Hears(s, d, b, elapsed);
  }

  /** A connection the device asks for is claimed with the request for its
      control channel, and comes up when the device answers, opens the interrupt
      channel and answers; BTHID and WII take the first request in Run. */
  lemma DeviceHandshakeCompletes(s: Service, d: Dongle, e: Surroundings, b: seq<Buffer>, elapsed: seq<bool>, id: seq<uint8>,
                                 control: Cid, interrupt: Cid)
    requires s.flags == {} && |b| == |elapsed| == |id| == 4 && ClaimsOn(s, d, b[0])
    requires forall k | 0 <= k < 4 :: HandleOk(d.handle, b[k])
    requires Decode(s, b[0]) == GotConnectionRequest(Control, id[0], control) && Decode(s, b[1]) == GotConfigResponse(Control, id[1])
    requires Decode(s, b[2]) == GotConnectionRequest(Interrupt, id[2], interrupt) && Decode(s, b[3]) == GotConfigResponse(Interrupt, id[3])
    ensures var (s1, d1) := Acl(s, d, b[0], elapsed[0]);
      var (s2, d2) := HidMachine.Run(s1, d1, e);
      var (s3, d3) := Acl(s2, d2, b[1], elapsed[1]);
      var (s4, d4) := Acl(s3, d3, b[2], elapsed[2]);
      var (s5, d5) := Acl(s4, d4, b[3], elapsed[3]);
      && ChannelsUp(s5) && s5.controlScid == control && s5.interruptScid == interrupt && NoLongerSought(s.kind, d5)
      && (s.kind == Ps3 ==> s5.remoteName == d.remoteName)
  {
    hide Decode, HandleOk, Acl, ClaimsOn, HidMachine.Run, ChannelsUp;
    DeviceIsAccepted(s, d, e, b[0], elapsed[0], id[0], control);
    var (s1, d1) := Acl(s, d, b[0], elapsed[0]);
    var (s2, d2) := HidMachine.Run(s1, d1, e);
    DecodeByKind(s, s2, b[1]);
    HearsConfig(s2, d2, b[1], elapsed[1], id[1]);
    var (s3, d3) := Acl(s2, d2, b[1], elapsed[1]);
    DecodeByKind(s, s3, b[2]);
    DecodeByKind(s, s3, b[3]);
    InterruptComesUp(s3, d3, b[2..], elapsed[2..], id[2..], interrupt);
  }

  lemma HearsConfig(s: Service, d: Dongle, b: Buffer, elapsed: bool, id: uint8)
    requires s.active && HandleOk(s.handle, b) && s.state == ControlSuccess && Decode(s, b) == GotConfigResponse(Control, id)
    ensures var s' := Acl(s, d, b, elapsed).0;
      && s'.state == InterruptSetup && s'.kind == s.kind && s'.active && s'.handle == s.handle && s'.controlScid == s.controlScid
      && s'.remoteName == s.remoteName
      && s'.flags == s.flags + {ConfigSucceeded(Control)}
  {
    hide Decode, HandleOk, Acl;
    Hears(s, d, b, elapsed);
  }

  lemma InterruptComesUp(s: Service, d: Dongle, b: seq<Buffer>, elapsed: seq<bool>, id: seq<uint8>, interrupt: Cid)
    requires |b| == |elapsed| == |id| == 2 && s.active && s.state == InterruptSetup && HandleOk(s.handle, b[0]) && HandleOk(s.handle, b[1])
    requires Decode(s, b[0]) == GotConnectionRequest(Interrupt, id[0], interrupt) && Decode(s, b[1]) == GotConfigResponse(Interrupt, id[1])
    requires ConfigSucceeded(Interrupt) !in s.flags
    ensures var (s1, d1) := Acl(s, d, b[0], elapsed[0]);
      var (s2, d2) := Acl(s1, d1, b[1], elapsed[1]);
      && ChannelsUp(s2) && s2.controlScid == s.controlScid && s2.interruptScid == interrupt && NoLongerSought(s.kind, d2)
      && s2.remoteName == s.remoteName
  {
    hide Decode, HandleOk, Acl, ChannelsUp;
    AcceptsInterrupt(s, d, b[0], elapsed[0], id[0], interrupt);
    var (s1, d1) := Acl(s, d, b[0], elapsed[0]);
    DecodeByKind(s, s1, b[1]);
    ConfiguresInterrupt(s1, d1, b[1], elapsed[1], id[1]);
  }

  lemma DeviceIsAccepted(s: Service, d: Dongle, e: Surroundings, b: Buffer, elapsed: bool, id: uint8, control: Cid)
    requires s.flags == {} && ClaimsOn(s, d, b) && HandleOk(d.handle, b) && Decode(s, b) == GotConnectionRequest(Control, id, control)
    ensures var (s1, d1) := Acl(s, d, b, elapsed);
      var s2 := HidMachine.Run(s1, d1, e).0;
      && s2.kind == s.kind && s2.state == ControlSuccess && s2.flags == {ConnectionRequested(Control)}
      && s2.active && s2.handle == d.handle && s2.controlScid == control && (s.kind == Ps3 ==> s2.remoteName == d.remoteName)
  {
    hide Decode, HandleOk, Acl;
    Claims(s, d, b, elapsed);
  }

  /** A packet that makes a service claim the connection is then heard on it. */
  lemma Claims(s: Service, d: Dongle, b: Buffer, elapsed: bool)
    requires ClaimsOn(s, d, b) && HandleOk(d.handle, b)
    requires Decode(s, b).GotConnectionRequest?
    ensures var (s', d') := Claim(s, d);
      Acl(s, d, b, elapsed) == Task(OnSignal(s', Decode(s, b)), d', elapsed)
  {
    hide Decode, OnSignal, Task, HandleOk;
    DecodeByKind(s, Claim(s, d).0, b);
  }

  // ----- turns

  /** What happens to a service: a call of Run or a packet. */
  datatype Turn = Ran(e: Surroundings) | Got(b: Buffer, elapsed: bool)

  function AfterTurn(s: Service, d: Dongle, turn: Turn): (Service, Dongle) {
    match turn
    case Ran(e) => HidMachine.Run(s, d, e)
    case Got(b, elapsed) => Acl(s, d, b, elapsed)
  }

  function Turns(s: Service, d: Dongle, turns: seq<Turn>): (Service, Dongle)
    decreases |turns|
  {
    if turns == [] then (s, d)
    else
      var (s', d') := AfterTurn(s, d, turns[0]);
      Turns(s', d', turns[1..])
  }

  /** A packet that asks to disconnect one of the service's channels. */
  predicate Disconnects(s: Service, turn: Turn) {
    turn.Got? && HandleOk(s.handle, turn.b) && Decode(s, turn.b).GotDisconnectRequest?
  }

  // ----- disconnecting

  /** Two packets finish a disconnect, one for each channel; a Wiimote also waits
      for its timer. No answer can be taken for a new connection. */
  lemma DisconnectCompletes(s: Service, d: Dongle, b: seq<Buffer>, elapsed: seq<bool>, id: seq<uint8>)
    requires |b| == |elapsed| == |id| == 2 && HandleOk(s.handle, b[0]) && HandleOk(s.handle, b[1])
    requires Decode(s, b[0]) == GotDisconnectResponse(Interrupt, id[0]) && Decode(s, b[1]) == GotDisconnectResponse(Control, id[1])
    requires s.kind == Wii ==> elapsed[0]
    ensures var (s1, d1) := Acl(Disconnected(s), d, b[0], elapsed[0]);
      var (s2, d2) := Acl(s1, d1, b[1], elapsed[1]);
      && s1.state == ControlDisconnect && d2 == d
      && s2.state == Wait && s2.flags == {} && s2.handle == 0xFFFF && !s2.active && !s2.connected
      && s2.log == s.log + [DisconnectRequestSent(Interrupt), Cleared(ByDisconnect), DisconnectResponse(Interrupt),
                            DisconnectRequestSent(Control), DisconnectResponse(Control),
                            HciDisconnectSent, Cleared(ByHciDisconnect)]
  {
    hide Decode, HandleOk, Acl;
    var s0 := Disconnected(s);
    AnswersChannel(s, s0, b[0]);
    AnswerIsNoClaim(s0, d, b[0], elapsed[0]);
    var (s1, d1) := Acl(s0, d, b[0], elapsed[0]);
    AnswersChannel(s, s1, b[1]);
    AnswerIsNoClaim(s1, d1, b[1], elapsed[1]);
  }

  lemma AnswersChannel(s: Service, s': Service, b: Buffer)
    requires s'.kind == s.kind && s'.controlScid == s.controlScid && s'.interruptScid == s.interruptScid
    ensures Decode(s', b) == Decode(s, b)
  {
  }

  lemma AnswerIsNoClaim(s: Service, d: Dongle, b: Buffer, elapsed: bool)
    requires Decode(s, b).GotDisconnectResponse? && HandleOk(s.handle, b)
    ensures Acl(s, d, b, elapsed) == Task(OnSignal(s, Decode(s, b)), d, elapsed)
  {
    hide OnSignal, Task, HandleOk;
  }

  /** A packet that makes the service leave a disconnect behind: one that claims
      a new connection, or a disconnect request of the device. */
  predicate Abandons(s: Service, d: Dongle, turn: Turn) {
    turn.Got? && (ClaimsOn(s, d, turn.b) || Disconnects(s, turn))
  }

  /** Waiting for the answer of a channel that has not come. */
  predicate Awaits(s: Service) {
    && !s.active && !s.connected
    && ((s.state == InterruptDisconnect && DisconnectAnswered(Interrupt) !in s.flags) ||
        (s.state == ControlDisconnect && DisconnectAnswered(Control) !in s.flags))
  }

  /** Neither an answer nor anything taken for one. */
  predicate NoAnswer(turn: Turn) {
    turn.Got? ==> turn.b[8] != DISCONNECT_RESPONSE
  }

  /** Until the answer comes, the service goes on waiting for it exactly as long
      as no packet makes it claim a new connection and none asks for a
      disconnect: after those the old connection is never closed. */
  lemma {:induction false} AwaitsExactlyUnlessAbandoned(s: Service, d: Dongle, turns: seq<Turn>)
    requires Awaits(s) && forall k | 0 <= k < |turns| :: NoAnswer(turns[k])
    ensures Turns(s, d, turns).0.state == s.state <==> forall k | 0 <= k < |turns| :: !Abandons(s, d, turns[k])
    decreases |turns|
  {
    hide AfterTurn, Abandons, Awaits, NoAnswer;
    if turns != [] {
      var (s', d') := AfterTurn(s, d, turns[0]);
      assert turns == [turns[0]] + turns[1..];
      if Abandons(s, d, turns[0]) {
        AbandonedByTurn(s, d, turns[0]);
        NeverDisconnectsAgain(s', d', turns[1..]);
        AwaitsIsDisconnecting(s);
      } else {
        AwaitsAfterTurn(s, d, turns[0]);
        AwaitsExactlyUnlessAbandoned(s', d', turns[1..]);
      }
    }
  }

  lemma AwaitsIsDisconnecting(s: Service)
    requires Awaits(s)
    ensures !Elsewhere(s.state)
  {
  }

  lemma AwaitsAfterTurn(s: Service, d: Dongle, turn: Turn)
    requires Awaits(s) && NoAnswer(turn) && !Abandons(s, d, turn)
    ensures var (s', d') := AfterTurn(s, d, turn);
      && Awaits(s') && s'.state == s.state && d' == d
      && forall t :: Abandons(s', d', t) == Abandons(s, d, t)
  {
    hide Abandons, Acl, HidMachine.Run, Awaits;
    match turn {
      case Got(b, elapsed) => AwaitsAfterPacket(s, d, b, elapsed);
      case Ran(e) => AwaitsAfterRun(s, d, e);
    }
    AbandonsAlike(s, AfterTurn(s, d, turn).0, d);
  }

  lemma AbandonsAlike(s: Service, s': Service, d: Dongle)
    requires s'.kind == s.kind && s'.handle == s.handle && s'.active == s.active && s'.connected == s.connected
    ensures forall t :: Abandons(s', d, t) == Abandons(s, d, t)
  {
    hide HandleOk, Dcid;
  }

  lemma AwaitsAfterRun(s: Service, d: Dongle, e: Surroundings)
    requires Awaits(s)
    ensures HidMachine.Run(s, d, e) == (s, d)
  {
  }

  lemma AwaitsAfterPacket(s: Service, d: Dongle, b: Buffer, elapsed: bool)
    requires Awaits(s) && b[8] != DISCONNECT_RESPONSE && !Abandons(s, d, Got(b, elapsed))
    ensures var (s', d') := Acl(s, d, b, elapsed);
      && Awaits(s') && s'.state == s.state && d' == d
      && s'.kind == s.kind && s'.handle == s.handle && s'.active == s.active && s'.connected == s.connected
  {
    hide HandleOk, Decode, ClaimsOn;
    NoAnswerDecodes(s, b);
  }

  lemma NoAnswerDecodes(s: Service, b: Buffer)
    requires b[8] != DISCONNECT_RESPONSE
    ensures !Decode(s, b).GotDisconnectResponse?
  {
  }

  predicate Elsewhere(state: L2capState) {
    state != InterruptDisconnect && state != ControlDisconnect
  }

  lemma AbandonedByTurn(s: Service, d: Dongle, turn: Turn)
    requires Awaits(s) && NoAnswer(turn) && Abandons(s, d, turn)
    ensures var s' := AfterTurn(s, d, turn).0;
      Elsewhere(s'.state)
  {
    hide HandleOk, Dcid;
  }

  /** Only disconnect() starts a disconnect. */
  lemma {:induction false} NeverDisconnectsAgain(s: Service, d: Dongle, turns: seq<Turn>)
    requires Elsewhere(s.state)
    ensures var s' := Turns(s, d, turns).0;
      Elsewhere(s'.state)
    decreases |turns|
  {
    hide AfterTurn;
    if turns != [] {
      OtherStatesStay(s, d, turns[0]);
      var (s', d') := AfterTurn(s, d, turns[0]);
      NeverDisconnectsAgain(s', d', turns[1..]);
    }
  }

  lemma OtherStatesStay(s: Service, d: Dongle, turn: Turn)
    requires Elsewhere(s.state)
    ensures var s' := AfterTurn(s, d, turn).0;
      Elsewhere(s'.state)
  {
    hide Decode, HandleOk, ClaimsOn, OnSignal, Task, Claim, HidMachine.Run;
    match turn {
      case Got(b, elapsed) =>
        var (s1, d1) := if ClaimsOn(s, d, b) then Claim(s, d) else (s, d);
        ClaimStays(s, d);
        SignalStays(s1, Decode(s1, b));
        TaskStays(OnSignal(s1, Decode(s1, b)), d1, elapsed);
      case Ran(e) => RunStays(s, d, e);
    }
  }

  lemma ClaimStays(s: Service, d: Dongle)
    ensures Elsewhere(Claim(s, d).0.state)
  {
  }

  lemma SignalStays(s: Service, signal: Signal)
    requires Elsewhere(s.state)
    ensures Elsewhere(OnSignal(s, signal).state)
  {
  }

  lemma TaskStays(s: Service, d: Dongle, elapsed: bool)
    requires Elsewhere(s.state)
    ensures Elsewhere(Task(s, d, elapsed).0.state)
  {
  }

  lemma RunStays(s: Service, d: Dongle, e: Surroundings)
    requires Elsewhere(s.state)
    ensures Elsewhere(HidMachine.Run(s, d, e).0.state)
  {
    hide Task;
  }

  /** A Wiimote that has answered leaves its interrupt channel once the timer has
      run out, at a call of Run or at a packet, and not before; the others at the
      next packet. */
  lemma AnswerMovesOnExactlyWhen(s: Service, d: Dongle, turn: Turn)
    requires s.state == InterruptDisconnect && !s.active && !s.connected && DisconnectAnswered(Interrupt) in s.flags
    requires !Abandons(s, d, turn)
    ensures var s' := AfterTurn(s, d, turn).0;
      && (s'.state == ControlDisconnect <==>
            match turn
            case Ran(e) => s.kind == Wii && e.elapsed
            case Got(b, elapsed) => HandleOk(s.handle, b) && (s.kind == Wii ==> elapsed))
      && (s'.state != ControlDisconnect ==> s'.state == InterruptDisconnect)
  {
    hide HandleOk, Decode, ClaimsOn;
  }

  // ----- a PS3 controller finishes its setup

  /** The calls of Run at which a timer had run out. */
  function Elapses(turns: seq<Turn>): nat
    decreases |turns|
  {
    if turns == [] then 0 else (if turns[0].Ran? && turns[0].e.elapsed then 1 else 0) + Elapses(turns[1..])
  }

  /** The timers a state still has to wait for. */
  function TimersLeft(state: L2capState): nat {
    match state
    case EnableSixaxis => 2
    case TurnOnLed => 1
    case _ => 0
  }

  predicate Ps3SettingUp(s: Service) {
    s.kind == Ps3 && s.active && s.state in {EnableSixaxis, TurnOnLed, Done}
  }

  /** With its channels up a PS3 controller is done exactly when it has waited for
      its timers, one for a Move and two for the others, and is connected exactly
      if its name begins with P, N or M. */
  lemma {:induction false} Ps3FinishesExactlyWhen(s: Service, d: Dongle, turns: seq<Turn>)
    requires Ps3SettingUp(s) && NoDisconnect(s, turns)
    ensures var s' := Turns(s, d, turns).0;
      && Ps3SettingUp(s')
      && TimersLeft(s'.state) == (if Elapses(turns) < TimersLeft(s.state) then TimersLeft(s.state) - Elapses(turns) else 0)
      && (s'.connected <==>
            s.connected || (0 < TimersLeft(s.state) <= Elapses(turns) && s.remoteName in {0x50, 0x4E, 0x4D}))
    decreases |turns|
  {
    hide AfterTurn, Disconnects;
    if turns != [] {
      var (s', d') := AfterTurn(s, d, turns[0]);
      Ps3Turn(s, d, turns[0]);
      Ps3FinishesExactlyWhen(s', d', turns[1..]);
    }
  }

  lemma Ps3Turn(s: Service, d: Dongle, turn: Turn)
    requires Ps3SettingUp(s) && !Disconnects(s, turn)
    ensures var s' := AfterTurn(s, d, turn).0;
      var done := Elapses([turn]);
      && Ps3SettingUp(s') && s'.remoteName == s.remoteName && done <= 1
      && TimersLeft(s'.state) == (if done < TimersLeft(s.state) then TimersLeft(s.state) - done else 0)
      && (s'.connected <==> s.connected || (0 < TimersLeft(s.state) <= done && s.remoteName in {0x50, 0x4E, 0x4D}))
      && Elapses([turn]) == (if turn.Ran? && turn.e.elapsed then 1 else 0)
      && forall t :: Disconnects(s', t) == Disconnects(s, t)
  {
    hide HandleOk, Dcid;
    assert [turn][1..] == [];
    if turn.Got? {
      Ps3Packet(s, d, turn.b, turn.elapsed);
    }
    AlikePackets(s, AfterTurn(s, d, turn).0);
  }

  lemma Ps3Packet(s: Service, d: Dongle, b: Buffer, elapsed: bool)
    requires Ps3SettingUp(s) && !Disconnects(s, Got(b, elapsed))
    ensures var s' := Acl(s, d, b, elapsed).0;
      s'.state == s.state && s'.kind == s.kind && s'.active && s'.handle == s.handle && s'.remoteName == s.remoteName && s'.connected == s.connected
  {
    hide HandleOk, Decode;
  }

  // ----- a Wiimote finishes its setup

  /** Calls of Run until a 16-bit counter that each raises comes to `target`. */
  function UpTo(counter: uint16, target: uint16): nat {
    if counter < target then target - counter else 0x1_0000 + target - counter
  }

  /** A bound on the calls of Run a Wiimote still needs. */
  function CallsLeft(s: Service): nat {
    match s.state
    case CheckMotionPlus => UpTo(s.stateCounter, 601) + 401
    case CheckExtension => UpTo(s.stateCounter, 400) + 1
    case InitMotionPlus => UpTo(s.stateCounter, 300) + 1
    case TurnOnLed => 1
    case _ => 0
  }

  function RunCount(turns: seq<Turn>): nat
    decreases |turns|
  {
    if turns == [] then 0 else (if turns[0].Ran? then 1 else 0) + RunCount(turns[1..])
  }

  predicate SettingUp(s: Service) {
    s.kind == Wii && s.active && (CallsLeft(s) > 0 || (s.state == Done && s.connected))
  }

  /** A report of an inactive Motion Plus. */
  predicate Inactive(s: Service, turn: Turn) {
    turn.Got? && HandleOk(s.handle, turn.b) && Decode(s, turn.b).GotInactiveMotionPlus?
  }

  /** One call of Run is one call less to go. */
  lemma RunSetsUp(s: Service, d: Dongle, e: Surroundings)
    requires SettingUp(s)
    ensures var s' := HidMachine.Run(s, d, e).0;
      && SettingUp(s') && s'.handle == s.handle
      && CallsLeft(s') <= if CallsLeft(s) == 0 then 0 else CallsLeft(s) - 1
  {
  }

  /** Of the packets, only a disconnect request and the report of an inactive
      Motion Plus touch the setup; the report sets its counter. */
  lemma PacketInSetup(s: Service, d: Dongle, b: Buffer, elapsed: bool)
    requires SettingUp(s) && !Disconnects(s, Got(b, elapsed))
    ensures var s' := Acl(s, d, b, elapsed).0;
      && SettingUp(s') && s'.handle == s.handle && s'.state == s.state && s'.connected == s.connected
      && s'.stateCounter == if Inactive(s, Got(b, elapsed)) then 300 else s.stateCounter
  {
    hide Decode, HandleOk;
  }

  lemma AlikePackets(s: Service, s': Service)
    requires s.kind == s'.kind && s.handle == s'.handle
    ensures forall t :: Disconnects(s', t) == Disconnects(s, t)
    ensures forall t :: Inactive(s', t) == Inactive(s, t)
  {
    hide HandleOk;
  }

  lemma TurnInSetup(s: Service, d: Dongle, turn: Turn)
    requires SettingUp(s) && !Disconnects(s, turn)
    ensures var s' := AfterTurn(s, d, turn).0;
      && SettingUp(s')
      && (!Inactive(s, turn) || s.state in {TurnOnLed, Done} ==> CallsLeft(s') + (if turn.Ran? && CallsLeft(s) > 0 then 1 else 0) <= CallsLeft(s))
      && (forall t :: Disconnects(s', t) == Disconnects(s, t))
      && (forall t :: Inactive(s', t) == Inactive(s, t))
  {
    hide HidMachine.Run, Acl, Disconnects, Inactive;
    match turn {
      case Ran(e) => RunSetsUp(s, d, e);
      case Got(b, elapsed) => PacketInSetup(s, d, b, elapsed);
    }
    AlikePackets(s, AfterTurn(s, d, turn).0);
  }

  /** No disconnect request, and no report of an inactive Motion Plus before the
      last step of the setup. */
  ghost predicate Undisturbed(s: Service, d: Dongle, turns: seq<Turn>)
    decreases |turns|
  {
    turns == [] ||
    (&& !Disconnects(s, turns[0])
     && (Inactive(s, turns[0]) ==> s.state in {TurnOnLed, Done})
     && var (s', d') := AfterTurn(s, d, turns[0]);
        Undisturbed(s', d', turns[1..]))
  }

  /** With its channels up, a Wiimote is connected after as many calls of Run as
      it still needs, whatever it meets and whatever else arrives in between. */
  lemma {:induction false} WiimoteFinishes(s: Service, d: Dongle, turns: seq<Turn>)
    requires SettingUp(s) && RunCount(turns) >= CallsLeft(s) && Undisturbed(s, d, turns)
    ensures var s' := Turns(s, d, turns).0;
      s'.connected && s'.state == Done
    decreases |turns|
  {
    hide AfterTurn, Disconnects, Inactive;
    if turns != [] {
      var (s', d') := AfterTurn(s, d, turns[0]);
      TurnInSetup(s, d, turns[0]);
      WiimoteFinishes(s', d', turns[1..]);
    }
  }

  // ----- unless its Motion Plus is inactive

  /** At most `left` calls of Run before such a report, and `reload` after each. */
  predicate Prodded(s: Service, left: nat, reload: nat, turns: seq<Turn>)
    decreases |turns|
  {
    turns == [] ||
    if turns[0].Ran? then left > 0 && Prodded(s, left - 1, reload, turns[1..])
    else Prodded(s, if Inactive(s, turns[0]) then reload else left, reload, turns[1..])
  }

  /** The same in the check of the extension port, where the 100th call finds no
      extension and skips to the end, or finds one and goes on. */
  predicate ProddedAtPort(s: Service, left: nat, turns: seq<Turn>)
    decreases |turns|
  {
    turns == [] ||
    if turns[0].Ran? then
      left > 0 && ProddedAtPort(s, if left == 300 && !turns[0].e.unknownExtension then 0 else left - 1, turns[1..])
    else ProddedAtPort(s, if Inactive(s, turns[0]) then 99 else left, turns[1..])
  }

  ghost predicate NoDisconnect(s: Service, turns: seq<Turn>) {
    forall k | 0 <= k < |turns| :: !Disconnects(s, turns[k])
  }

  /** The report is meant to end the wait for a Motion Plus; a Wiimote stays in it
      exactly as long as the reports keep coming and no active one is seen. */
  lemma {:induction false} WaitsExactlyWhileProdded(s: Service, d: Dongle, turns: seq<Turn>)
    requires SettingUp(s) && s.state == CheckMotionPlus && s.stateCounter <= 600 && NoDisconnect(s, turns)
    ensures Turns(s, d, turns).0.state == CheckMotionPlus <==>
      Prodded(s, 600 - s.stateCounter, 300, turns) && forall k | 0 <= k < |turns| && turns[k].Ran? :: !turns[k].e.motionPlus
    decreases |turns|
  {
    hide AfterTurn, Disconnects, Inactive, CallsLeft, SettingUp;
    if turns != [] {
      var (s', d') := AfterTurn(s, d, turns[0]);
      TurnInSetup(s, d, turns[0]);
      CounterInTurn(s, d, turns[0]);
      if s'.state == CheckMotionPlus {
        ProddedAlike(s, s', 600 - s'.stateCounter, 300, turns[1..]);
        WaitsExactlyWhileProdded(s', d', turns[1..]);
        assert turns == [turns[0]] + turns[1..];
      } else {
        NeverReturns(s', d', CheckMotionPlus, turns[1..]);
      }
    }
  }

  /** The initialisation of a Motion Plus lasts until its counter is 300, exactly:
      a report lets it miss that number, and the counter has to come round. */
  lemma {:induction false} InitialisesExactlyWhileProdded(s: Service, d: Dongle, turns: seq<Turn>)
    requires SettingUp(s) && s.state == InitMotionPlus && NoDisconnect(s, turns)
    ensures Turns(s, d, turns).0.state == InitMotionPlus <==> Prodded(s, UpTo(s.stateCounter, 300) - 1, 0xFFFF, turns)
    decreases |turns|
  {
    hide AfterTurn, Disconnects, Inactive, CallsLeft, SettingUp;
    if turns != [] {
      var (s', d') := AfterTurn(s, d, turns[0]);
      TurnInSetup(s, d, turns[0]);
      CounterInTurn(s, d, turns[0]);
      if s'.state == InitMotionPlus {
        ProddedAlike(s, s', UpTo(s'.stateCounter, 300) - 1, 0xFFFF, turns[1..]);
        InitialisesExactlyWhileProdded(s', d', turns[1..]);
      } else {
        NeverReturns(s', d', InitMotionPlus, turns[1..]);
      }
    }
  }

  /** The check of the extension port, likewise. */
  lemma {:induction false} ChecksPortExactlyWhileProdded(s: Service, d: Dongle, turns: seq<Turn>)
    requires SettingUp(s) && s.state == CheckExtension && s.stateCounter <= 399 && NoDisconnect(s, turns)
    ensures Turns(s, d, turns).0.state == CheckExtension <==> ProddedAtPort(s, 399 - s.stateCounter, turns)
    decreases |turns|
  {
    hide AfterTurn, Disconnects, Inactive, CallsLeft, SettingUp;
    if turns != [] {
      var (s', d') := AfterTurn(s, d, turns[0]);
      TurnInSetup(s, d, turns[0]);
      CounterInTurn(s, d, turns[0]);
      if s'.state == CheckExtension {
        ProddedAtPortAlike(s, s', 399 - s'.stateCounter, turns[1..]);
        ChecksPortExactlyWhileProdded(s', d', turns[1..]);
      } else {
        NeverReturns(s', d', CheckExtension, turns[1..]);
      }
    }
  }

  /** What one turn does to a state of the setup and its counter. */
  lemma CounterInTurn(s: Service, d: Dongle, turn: Turn)
    requires SettingUp(s) && !Disconnects(s, turn)
    ensures var s' := AfterTurn(s, d, turn).0;
      && (turn.Got? ==> s'.state == s.state && s'.stateCounter == if Inactive(s, turn) then 300 else s.stateCounter)
      && (turn.Ran? ==> (s'.state, s'.stateCounter) == Advanced(s, turn.e))
  {
    hide Acl, Disconnects, Inactive;
    if turn.Got? {
      PacketInSetup(s, d, turn.b, turn.elapsed);
    }
  }

  /** State and counter after a call of Run. */
  function Advanced(s: Service, e: Surroundings): (L2capState, uint16) {
    var n := (s.stateCounter + 1) % 0x1_0000;
    match s.state
    case CheckMotionPlus =>
      if e.motionPlus then (InitMotionPlus, 0) else if n == 601 then (CheckExtension, 0) else (CheckMotionPlus, n)
    case CheckExtension =>
      if n == 100 && !e.unknownExtension then (CheckExtension, 399) else if n == 400 then (TurnOnLed, 0) else (CheckExtension, n)
    case InitMotionPlus => if n == 300 then (TurnOnLed, 0) else (InitMotionPlus, n)
    case _ => (Done, s.stateCounter)
  }

  lemma {:induction false} ProddedAlike(s: Service, s': Service, left: nat, reload: nat, turns: seq<Turn>)
    requires forall t :: Inactive(s', t) == Inactive(s, t)
    ensures Prodded(s', left, reload, turns) == Prodded(s, left, reload, turns)
    decreases |turns|
  {
    hide Inactive;
    if turns != [] {
      var now := if turns[0].Ran? then (if left > 0 then left - 1 else 0) else if Inactive(s, turns[0]) then reload else left;
      ProddedAlike(s, s', now, reload, turns[1..]);
    }
  }

  lemma {:induction false} ProddedAtPortAlike(s: Service, s': Service, left: nat, turns: seq<Turn>)
    requires forall t :: Inactive(s', t) == Inactive(s, t)
    ensures ProddedAtPort(s', left, turns) == ProddedAtPort(s, left, turns)
    decreases |turns|
  {
    hide Inactive;
    if turns != [] {
      var now :=
        if turns[0].Got? then (if Inactive(s, turns[0]) then 99 else left)
        else if left == 0 || (left == 300 && !turns[0].e.unknownExtension) then 0 else left - 1;
      ProddedAtPortAlike(s, s', now, turns[1..]);
    }
  }

  /** The steps of the setup in their order. */
  function Rank(state: L2capState): nat {
    match state
    case CheckMotionPlus => 0
    case InitMotionPlus => 1
    case CheckExtension => 1
    case TurnOnLed => 2
    case _ => 3
  }

  /** A step once left does not come back. */
  lemma {:induction false} NeverReturns(s: Service, d: Dongle, step: L2capState, turns: seq<Turn>)
    requires SettingUp(s) && NoDisconnect(s, turns)
    requires s.state != step && Rank(s.state) >= Rank(step) && Rank(step) < 2
    ensures Turns(s, d, turns).0.state != step
    decreases |turns|
  {
    hide AfterTurn, Disconnects, Inactive, CallsLeft, SettingUp;
    if turns != [] {
      TurnInSetup(s, d, turns[0]);
      CounterInTurn(s, d, turns[0]);
      var (s', d') := AfterTurn(s, d, turns[0]);
      NeverReturns(s', d', step, turns[1..]);
    }
  }

  lemma {:induction false} FewCallsAreProdded(s: Service, left: nat, reload: nat, turns: seq<Turn>)
    requires RunCount(turns) <= left && RunCount(turns) <= reload
    ensures Prodded(s, left, reload, turns)
    decreases |turns|
  {
    hide Inactive;
    if turns != [] {
      FewCallsAreProdded(s, if turns[0].Ran? then left - 1 else if Inactive(s, turns[0]) then reload else left, reload, turns[1..]);
    }
  }

  /** So after a report during the initialisation 65535 calls of Run do not help. */
  lemma LateReportStalls(s: Service, d: Dongle, turns: seq<Turn>)
    requires SettingUp(s) && s.state == InitMotionPlus && turns != [] && Inactive(s, turns[0])
    requires RunCount(turns) < 0x1_0000 && NoDisconnect(s, turns)
    ensures Turns(s, d, turns).0.state == InitMotionPlus
  {
    hide AfterTurn, Disconnects, CallsLeft, SettingUp;
    InitialisesExactlyWhileProdded(s, d, turns);
    FewCallsAreProdded(s, 0xFFFF, 0xFFFF, turns[1..]);
  }
}
