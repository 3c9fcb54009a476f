/** The connection machines of the BTHID, WII and PS3BT services as functions of
    a service and the dongle it shares. The three drivers carry the same
    functions with the differences that `Kind` marks. */
module HidMachine {
  import opened Integers

  datatype Kind = Bthid | Wii | Ps3

  datatype Channel = Control | Interrupt

  datatype L2capState =
    | Wait | Done
    | ControlConnectRequest | ControlConfigRequest | ControlSuccess | ControlDisconnect
    | InterruptSetup | InterruptConnectRequest | InterruptConfigRequest | InterruptDisconnect
    | TurnOnLed | EnableSixaxis | CheckMotionPlus | CheckExtension | InitMotionPlus

  /** The bits of l2cap_event_flag. */
  datatype Flag =
    | ConnectionRequested(channel: Channel)
    | ConfigSucceeded(channel: Channel)
    | ChannelConnected(channel: Channel)
    | DisconnectAnswered(channel: Channel)

  /** Why the event flags were cleared. */
  datatype Clear = ByReset | ByDisconnect | ByConnecting | ByHciDisconnect

  /** What happens at a service, in order: responses it receives, commands it
      sends, and the changes of its own state that matter to others. */
  datatype Event =
    | Cleared(why: Clear)
    | ConfigResponse(channel: Channel)
    | DisconnectResponse(channel: Channel)
    | ConnectionRequestSent(channel: Channel)
    | ConnectionResponseSent(channel: Channel)
    | ConfigRequestSent(channel: Channel)
    | ConfigResponseSent(channel: Channel)
    | DisconnectRequestSent(channel: Channel)
    | DisconnectResponseSent(channel: Channel)
    | HciDisconnectSent
    | BecameConnected
    | ClaimedConnection

  type Log = seq<Event>

  datatype Cid = Cid(low: uint8, high: uint8)

  datatype Service = Service(kind: Kind, state: L2capState, flags: set<Flag>, handle: uint16, identifier: uint8,
                             controlScid: Cid, interruptScid: Cid, active: bool, connected: bool,
                             remoteName: uint8, stateCounter: uint16, log: Log)

  /** The fields of the dongle the services read or write. */
  datatype Dongle = Dongle(claimed: bool, handle: uint16, remoteName: uint8,
                           connectToHid: bool, incomingHid: bool, pairWithHid: bool,
                           connectToWii: bool, incomingWii: bool, pairWithWii: bool)

  // ----- packets

  type Buffer = b: seq<uint8> | |b| == 64 witness seq(64, _ => 0)

  const CONNECTION_REQUEST: uint8 := 0x02
  const CONNECTION_RESPONSE: uint8 := 0x03
  const CONFIG_REQUEST: uint8 := 0x04
  const CONFIG_RESPONSE: uint8 := 0x05
  const DISCONNECT_REQUEST: uint8 := 0x06
  const DISCONNECT_RESPONSE: uint8 := 0x07
  const HID_CTRL_PSM := 0x11
  const HID_INTR_PSM := 0x13

  function U16(b: Buffer, i: nat): uint16
    requires i < 63
  {
    b[i] as int + 0x100 * b[i + 1] as int
  }

  function CidAt(b: Buffer, i: nat): Cid
    requires i < 63
  {
    Cid(b[i], b[i + 1])
  }

  function Dcid(kind: Kind, channel: Channel): Cid {
    var low := match kind case Bthid => 0x70 case Wii => 0x60 case Ps3 => 0x40;
    Cid(if channel == Control then low else low + 1, 0)
  }

  predicate HandleOk(handle: uint16, b: Buffer) {
    var high := handle / 0x100;
    b[0] == handle % 0x100 && b[1] == if high / 0x20 % 2 == 1 then high else high + 0x20
  }

  /** The channel whose identifier this is, on our side or on the device's. */
  function OwnChannel(s: Service, cid: Cid): (r: set<Channel>) {
    if cid == Dcid(s.kind, Control) then {Control} else if cid == Dcid(s.kind, Interrupt) then {Interrupt} else {}
  }

  function PeerChannel(s: Service, cid: Cid): (r: set<Channel>) {
    if cid == s.controlScid then {Control} else if cid == s.interruptScid then {Interrupt} else {}
  }

  datatype Signal =
    | Ignored
    | GotConnectionResponse(channel: Channel, identifier: uint8, scid: Cid)
    | GotConnectionRequest(channel: Channel, identifier: uint8, scid: Cid)
    | GotConfigResponse(channel: Channel, identifier: uint8)
    | GotConfigRequest(channel: Channel)
    | GotDisconnectRequest(channel: Channel, identifier: uint8)
    | GotDisconnectResponse(channel: Channel, identifier: uint8)
    | GotInactiveMotionPlus

  /** The answer of a Wiimote to a memory read that shows an inactive Motion
      Plus; one with 0 at byte 19 is taken for an active one. */
  predicate InactiveMotionPlus(b: Buffer) {
    && b[8] == 0xA1 && b[9] == 0x21 && b[12] % 0x10 == 0
    && b[16] == 0 && b[17] == 0xA6 && b[18] == 0x20 && b[19] in {4, 5, 7} && b[20] == 5
  }

  /** The signalling command in a packet; the PS3 service never asks for a
      connection and so does not look at the responses. Of the reports, only
      the one that changes the state machine. */
  function Decode(s: Service, b: Buffer): Signal {
    if U16(b, 6) != 1 then
      if s.kind == Wii && CidAt(b, 6) == Dcid(Wii, Interrupt) && InactiveMotionPlus(b) then GotInactiveMotionPlus else Ignored
    else if b[8] == CONNECTION_RESPONSE && s.kind != Ps3 then
      if U16(b, 16) != 0 || U16(b, 18) != 0 then Ignored
      else if Control in OwnChannel(s, CidAt(b, 14)) then GotConnectionResponse(Control, b[9], CidAt(b, 12))
      else if Interrupt in OwnChannel(s, CidAt(b, 14)) then GotConnectionResponse(Interrupt, b[9], CidAt(b, 12))
      else Ignored
    else if b[8] == CONNECTION_REQUEST then
      if U16(b, 12) == HID_CTRL_PSM then GotConnectionRequest(Control, b[9], CidAt(b, 14))
      else if U16(b, 12) == HID_INTR_PSM then GotConnectionRequest(Interrupt, b[9], CidAt(b, 14))
      else Ignored
    else if b[8] == CONFIG_RESPONSE then
      if U16(b, 16) != 0 then Ignored
      else if Control in OwnChannel(s, CidAt(b, 12)) then GotConfigResponse(Control, b[9])
      else if Interrupt in OwnChannel(s, CidAt(b, 12)) then GotConfigResponse(Interrupt, b[9])
      else Ignored
    else if b[8] == CONFIG_REQUEST then
      if Control in OwnChannel(s, CidAt(b, 12)) then GotConfigRequest(Control)
      else if Interrupt in OwnChannel(s, CidAt(b, 12)) then GotConfigRequest(Interrupt)
      else Ignored
    else if b[8] == DISCONNECT_REQUEST then
      if Control in OwnChannel(s, CidAt(b, 12)) then GotDisconnectRequest(Control, b[9])
      else if Interrupt in OwnChannel(s, CidAt(b, 12)) then GotDisconnectRequest(Interrupt, b[9])
      else Ignored
    else if b[8] == DISCONNECT_RESPONSE then
      if Control in PeerChannel(s, CidAt(b, 12)) then GotDisconnectResponse(Control, b[9])
      else if Interrupt in PeerChannel(s, CidAt(b, 12)) then GotDisconnectResponse(Interrupt, b[9])
      else Ignored
    else Ignored
  }

  // ----- the service

  function Next(identifier: uint8): uint8 {
    (identifier + 1) % 0x100
  }

  function Emit(s: Service, e: Event): Service {
    s.(log := s.log + [e])
  }

  function ClearFlags(s: Service, why: Clear): Service {
    Emit(s.(flags := {}), Cleared(why))
  }

  function ResetBy(s: Service, why: Clear): Service {
    ClearFlags(s.(connected := false, active := false, state := Wait), why)
  }

  function Disconnected(s: Service): Service {
    var asked := Emit(s.(identifier := Next(s.identifier)), DisconnectRequestSent(Interrupt));
    ResetBy(asked, ByDisconnect).(state := InterruptDisconnect)
  }

  /** Whether a packet makes a service claim the incoming connection. */
  predicate ClaimsOn(s: Service, d: Dongle, b: Buffer) {
    && !d.claimed && !s.connected && !s.active
    && (match s.kind
        case Bthid => d.incomingHid
        case Wii => d.incomingWii
        case Ps3 => !d.connectToWii && !d.incomingWii && !d.pairWithWii)
    && b[8] == CONNECTION_REQUEST && U16(b, 12) == HID_CTRL_PSM
  }

  function Claim(s: Service, d: Dongle): (Service, Dongle) {
    (Emit(s.(active := true, handle := d.handle, state := Wait, remoteName := if s.kind == Ps3 then d.remoteName else s.remoteName),
          ClaimedConnection),
     d.(claimed := true,
        incomingHid := if s.kind == Bthid then false else d.incomingHid,
        incomingWii := if s.kind == Wii then false else d.incomingWii))
  }

  function WithScid(s: Service, channel: Channel, scid: Cid): Service {
    if channel == Control then s.(controlScid := scid) else s.(interruptScid := scid)
  }

  /** A signalling command: it leaves its flag, its identifier and the device's
      channel behind; a disconnect request resets the service. */
  function OnSignal(s: Service, signal: Signal): Service {
    match signal
    case Ignored => s
    case GotConnectionResponse(c, id, scid) =>
      WithScid(s, c, scid).(identifier := id, flags := s.flags + {ChannelConnected(c)})
    case GotConnectionRequest(c, id, scid) =>
      WithScid(s, c, scid).(identifier := id, flags := s.flags + {ConnectionRequested(c)})
    case GotConfigResponse(c, id) =>
      Emit(s.(identifier := if s.kind == Ps3 then s.identifier else id, flags := s.flags + {ConfigSucceeded(c)}), ConfigResponse(c))
    case GotConfigRequest(c) => Emit(s, ConfigResponseSent(c))
    case GotDisconnectRequest(c, id) => ResetBy(Emit(s.(identifier := id), DisconnectResponseSent(c)), ByReset)
    case GotDisconnectResponse(c, id) =>
      Emit(s.(identifier := id, flags := s.flags + {DisconnectAnswered(c)}), DisconnectResponse(c))
    case GotInactiveMotionPlus => s.(stateCounter := 300)
  }

  /** Answer a connection request and ask for the channel's configuration. */
  function Accept(s: Service, channel: Channel, next: L2capState): Service {
    var answered := Emit(Emit(s, ConnectionResponseSent(channel)), ConnectionResponseSent(channel));
    Emit(answered.(identifier := Next(s.identifier), state := next), ConfigRequestSent(channel))
  }

  function Ask(s: Service, e: Event, next: L2capState): Service {
    Emit(s.(identifier := Next(s.identifier), state := next), e)
  }

  /** Both channels are configured: BTHID is connected at once, the others have
      more to do. */
  function Established(s: Service, d: Dongle): (Service, Dongle) {
    match s.kind
    case Bthid => (Emit(s.(connected := true, state := Done), BecameConnected), d.(connectToHid := false, pairWithHid := false))
    case Wii => (s.(state := CheckMotionPlus, stateCounter := 0), d.(connectToWii := false, pairWithWii := false))
    case Ps3 => (s.(state := if s.remoteName == 'M' as int then TurnOnLed else EnableSixaxis), d)
  }

  /** L2CAP_task; `elapsed` says whether the timer a Wiimote disconnect waits
      for has run out. */
  function Task(s: Service, d: Dongle, elapsed: bool): (Service, Dongle) {
    match s.state
    case Wait =>
      (if s.kind == Ps3 && ConnectionRequested(Control) in s.flags then Accept(s, Control, ControlSuccess) else s, d)
    case ControlSuccess =>
      (if ConfigSucceeded(Control) in s.flags then s.(state := InterruptSetup) else s, d)
    case InterruptSetup =>
      (if ConnectionRequested(Interrupt) in s.flags then Accept(s, Interrupt, InterruptConfigRequest) else s, d)
    case ControlConnectRequest =>
      (if s.kind != Ps3 && ChannelConnected(Control) in s.flags then Ask(s, ConfigRequestSent(Control), ControlConfigRequest) else s, d)
    case ControlConfigRequest =>
      (if s.kind != Ps3 && ConfigSucceeded(Control) in s.flags
       then Ask(s, ConnectionRequestSent(Interrupt), InterruptConnectRequest) else s, d)
    case InterruptConnectRequest =>
      (if s.kind != Ps3 && ChannelConnected(Interrupt) in s.flags
       then Ask(s, ConfigRequestSent(Interrupt), InterruptConfigRequest) else s, d)
    case InterruptConfigRequest =>
      if ConfigSucceeded(Interrupt) in s.flags then Established(s, d) else (s, d)
    case InterruptDisconnect =>
      (if DisconnectAnswered(Interrupt) in s.flags && (s.kind == Wii ==> elapsed)
       then Ask(s, DisconnectRequestSent(Control), ControlDisconnect) else s, d)
    case ControlDisconnect =>
      (if DisconnectAnswered(Control) in s.flags
       then ClearFlags(Emit(s, HciDisconnectSent).(handle := 0xFFFF, state := Wait), ByHciDisconnect) else s, d)
    case _ => (s, d)
  }

  function Acl(s: Service, d: Dongle, b: Buffer, elapsed: bool): (Service, Dongle) {
    var (s1, d1) := if ClaimsOn(s, d, b) then Claim(s, d) else (s, d);
    if HandleOk(s1.handle, b) then Task(OnSignal(s1, Decode(s1, b)), d1, elapsed) else (s1, d1)
  }

  /** What Run finds when it is called: timers, and for a Wiimote the reports
      about its extensions. */
  datatype Surroundings = Surroundings(elapsed: bool, motionPlus: bool, unknownExtension: bool)

  predicate ClaimsInRun(s: Service, d: Dongle) {
    && s.state == Wait && !d.claimed && !s.connected && !s.active
    && match s.kind case Bthid => d.connectToHid case Wii => d.connectToWii case Ps3 => false
  }

  /** Start a connection to the device. */
  function ClaimAndConnect(s: Service, d: Dongle): (Service, Dongle) {
    var claimed := Emit(s.(active := true, handle := d.handle, identifier := 0), ClaimedConnection);
    (Emit(ClearFlags(claimed, ByConnecting), ConnectionRequestSent(Control)).(state := ControlConnectRequest), d.(claimed := true))
  }

  function RunWait(s: Service, d: Dongle): (Service, Dongle) {
    if ClaimsInRun(s, d) then ClaimAndConnect(s, d)
    else if s.kind != Ps3 && ConnectionRequested(Control) in s.flags then (Accept(s, Control, ControlSuccess), d)
    else (s, d)
  }

  function Connect(s: Service): Service {
    Emit(s.(connected := true), BecameConnected)
  }

  /** The states a Wiimote or a PS3 controller goes through between the channels
      and being connected. */
  function RunSetup(s: Service, e: Surroundings): Service {
    match s.state
    case CheckMotionPlus =>
      var n := (s.stateCounter + 1) % 0x1_0000;
      if e.motionPlus then s.(stateCounter := 0, state := InitMotionPlus)
      else if n == 601 then s.(stateCounter := 0, state := CheckExtension)
      else s.(stateCounter := n)
    case CheckExtension =>
      var n := (s.stateCounter + 1) % 0x1_0000;
      if n == 100 && !e.unknownExtension then s.(stateCounter := 399)
      else if n == 400 then s.(stateCounter := 0, state := TurnOnLed)
      else s.(stateCounter := n)
    case InitMotionPlus =>
      var n := (s.stateCounter + 1) % 0x1_0000;
      if n == 300 then s.(stateCounter := 0, state := TurnOnLed) else s.(stateCounter := n)
    case EnableSixaxis => if e.elapsed then s.(state := TurnOnLed) else s
    case TurnOnLed =>
      if s.kind == Wii then Connect(s).(state := Done)
      else if !e.elapsed then s
      else if s.remoteName in {'P' as int, 'N' as int, 'M' as int} then Connect(s).(state := Done)
      else s.(state := Done)
    case _ => s
  }

  function Run(s: Service, d: Dongle, e: Surroundings): (Service, Dongle) {
    var (s1, d1) := if s.kind == Wii && s.state == InterruptDisconnect && e.elapsed then Task(s, d, true) else (s, d);
    if s1.state == Wait then RunWait(s1, d1)
    else if s1.kind == Bthid then (s1, d1)
    else (RunSetup(s1, e), d1)
  }
}
