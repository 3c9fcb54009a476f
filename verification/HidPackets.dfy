/** Which bytes of a packet make a service take it for what: every flag of a
    service, and every connection, stands on packets that said so. */
module HidPackets {
  import opened Integers
  import opened HidMachine
  import opened HidHistory

  // ----- packets by their bytes

  /** The low byte of a channel's identifier on this side; the high one is 0. */
  function OwnByte(kind: Kind, c: Channel): uint8 {
    match (kind, c)
    case (Bthid, Control) => 0x70
    case (Bthid, Interrupt) => 0x71
    case (Wii, Control) => 0x60
    case (Wii, Interrupt) => 0x61
    case (Ps3, Control) => 0x40
    case (Ps3, Interrupt) => 0x41
  }

  /** A signalling command, section 4 of the L2CAP part of the Bluetooth Core
      specification: channel 1, then its code. */
  predicate Command(b: Buffer, code: uint8) {
    b[6] == 1 && b[7] == 0 && b[8] == code
  }

  predicate ConfigSuccess(kind: Kind, b: Buffer, c: Channel) {
    Command(b, 5) && b[12] == OwnByte(kind, c) && b[13] == 0 && b[16] == 0 && b[17] == 0
  }

  predicate ConnectSuccess(kind: Kind, b: Buffer, c: Channel) {
    && kind != Ps3 && Command(b, 3) && b[14] == OwnByte(kind, c) && b[15] == 0
    && b[16] == 0 && b[17] == 0 && b[18] == 0 && b[19] == 0
  }

  /** The protocol identifiers 0x11 and 0x13 stand for the HID channels. */
  predicate ConnectRequest(b: Buffer, c: Channel) {
    Command(b, 2) && b[12] == (if c == Control then 0x11 else 0x13) && b[13] == 0
  }

  predicate OnOwnChannel(kind: Kind, b: Buffer, code: uint8, c: Channel) {
    Command(b, code) && b[12] == OwnByte(kind, c) && b[13] == 0
  }

  /** The answer names the device's channel; if it uses one number for both, the
      control channel's. */
  predicate DisconnectAnswer(s: Service, b: Buffer, c: Channel) {
    && Command(b, 7)
    && (c == Interrupt ==> !(b[12] == s.controlScid.low && b[13] == s.controlScid.high))
    && b[12] == (if c == Control then s.controlScid.low else s.interruptScid.low)
    && b[13] == (if c == Control then s.controlScid.high else s.interruptScid.high)
  }

  /** What the service takes a packet for, byte by byte. */
  lemma DecodedExactlyWhen(s: Service, b: Buffer, c: Channel)
    ensures Decode(s, b) == GotConfigResponse(c, b[9]) <==> ConfigSuccess(s.kind, b, c)
    ensures Decode(s, b) == GotConnectionResponse(c, b[9], Cid(b[12], b[13])) <==> ConnectSuccess(s.kind, b, c)
    ensures Decode(s, b) == GotConnectionRequest(c, b[9], Cid(b[14], b[15])) <==> ConnectRequest(b, c)
    ensures Decode(s, b) == GotConfigRequest(c) <==> OnOwnChannel(s.kind, b, 4, c)
    ensures Decode(s, b) == GotDisconnectRequest(c, b[9]) <==> OnOwnChannel(s.kind, b, 6, c)
    ensures Decode(s, b) == GotDisconnectResponse(c, b[9]) <==> DisconnectAnswer(s, b, c)
  {
  }

  /** And the bytes it takes over. */
  lemma DecodedBytes(s: Service, b: Buffer)
    ensures match Decode(s, b)
      case GotConfigResponse(c, id) => id == b[9]
      case GotConnectionResponse(c, id, scid) => id == b[9] && scid == Cid(b[12], b[13])
      case GotConnectionRequest(c, id, scid) => id == b[9] && scid == Cid(b[14], b[15])
      case GotDisconnectRequest(c, id) => id == b[9]
      case GotDisconnectResponse(c, id) => id == b[9]
      case _ => true
  {
  }

  /** The connection handle in the first twelve bits, with flag 2 above it. */
  predicate OnHandle(handle: uint16, b: Buffer) {
    b[0] == handle % 0x100 && b[1] / 0x20 % 2 == 1 && (b[1] == handle / 0x100 || b[1] == handle / 0x100 + 0x20)
  }

  lemma HandleByBytes(handle: uint16, b: Buffer)
    ensures HandleOk(handle, b) <==> OnHandle(handle, b)
  {
  }

  // ----- flags stand on packets

  /** The packet that this flag needs. */
  predicate Says(s: Service, b: Buffer, flag: Flag) {
    match flag
    case ConfigSucceeded(c) => ConfigSuccess(s.kind, b, c)
    case ChannelConnected(c) => ConnectSuccess(s.kind, b, c)
    case ConnectionRequested(c) => ConnectRequest(b, c)
    case DisconnectAnswered(c) => DisconnectAnswer(s, b, c)
  }

  /** What no step but a signal or a claim changes: the channels and kind. */
  predicate SamePeer(s: Service, s': Service) {
    s'.kind == s.kind && s'.controlScid == s.controlScid && s'.interruptScid == s.interruptScid
  }

  lemma AcceptSetsNoFlag(s: Service, c: Channel, next: L2capState)
    ensures var s' := Accept(s, c, next);
      s'.flags == s.flags && s'.handle == s.handle && SamePeer(s, s')
  {
  }

  lemma EstablishedSetsNoFlag(s: Service, d: Dongle)
    ensures var s' := Established(s, d).0;
      s'.flags == s.flags && s'.handle == s.handle && SamePeer(s, s')
  {
  }

  lemma AskSetsNoFlag(s: Service, e: Event, next: L2capState)
    ensures var s' := Ask(s, e, next);
      s'.flags == s.flags && s'.handle == s.handle && SamePeer(s, s')
  {
  }

  lemma TaskSetsNoFlag(s: Service, d: Dongle, elapsed: bool)
    ensures var s' := Task(s, d, elapsed).0;
      && (s'.flags == s.flags || (s.state == ControlDisconnect && s'.state == Wait && s'.flags == {})) && (s'.flags != {} ==> s'.handle == s.handle)
      && SamePeer(s, s')
  {
    hide Accept, Established, Ask;
    match s.state
    case Wait => AcceptSetsNoFlag(s, Control, ControlSuccess);
    case InterruptSetup => AcceptSetsNoFlag(s, Interrupt, InterruptConfigRequest);
    case ControlConnectRequest => AskSetsNoFlag(s, ConfigRequestSent(Control), ControlConfigRequest);
    case ControlConfigRequest => AskSetsNoFlag(s, ConnectionRequestSent(Interrupt), InterruptConnectRequest);
    case InterruptConnectRequest => AskSetsNoFlag(s, ConfigRequestSent(Interrupt), InterruptConfigRequest);
    case InterruptConfigRequest => EstablishedSetsNoFlag(s, d);
    case InterruptDisconnect => AskSetsNoFlag(s, DisconnectRequestSent(Control), ControlDisconnect);
    case _ =>
  }

  lemma SignalSetsFlag(s: Service, b: Buffer, flag: Flag)
    ensures flag in OnSignal(s, Decode(s, b)).flags <==>
      (flag in s.flags && !Decode(s, b).GotDisconnectRequest?) || Says(s, b, flag)
    ensures OnSignal(s, Decode(s, b)).handle == s.handle && OnSignal(s, Decode(s, b)).kind == s.kind
  {
    hide Decode, ConfigSuccess, ConnectSuccess, ConnectRequest, OnOwnChannel, DisconnectAnswer;
    DecodedBytes(s, b);
    DecodedExactlyWhen(s, b, Control);
    DecodedExactlyWhen(s, b, Interrupt);
    DecodedExactlyWhen(s, b, flag.channel);
    match Decode(s, b)
    case GotConfigResponse(c, id) =>
    case GotConnectionResponse(c, id, scid) =>
    case GotConnectionRequest(c, id, scid) =>
    case GotDisconnectResponse(c, id) =>
    case _ =>
  }

  /** A flag that a packet sets is the one its bytes name, and the packet came on
      the service's own connection. */
  lemma NewFlagWasSaid(s: Service, d: Dongle, b: Buffer, elapsed: bool, flag: Flag)
    requires flag in Acl(s, d, b, elapsed).0.flags && flag !in s.flags
    ensures Says(s, b, flag) && OnHandle(Acl(s, d, b, elapsed).0.handle, b)
  {
    hide Decode, OnSignal, Task, Says, HandleOk, OnHandle, ClaimsOn;
    var (s1, d1) := if ClaimsOn(s, d, b) then Claim(s, d) else (s, d);
    HandleByBytes(s1.handle, b);
    SignalSetsFlag(s1, b, flag);
    TaskSetsNoFlag(OnSignal(s1, Decode(s1, b)), d1, elapsed);
    SaysByChannels(s, s1, b, flag);
  }

  lemma SaysByChannels(s: Service, s': Service, b: Buffer, flag: Flag)
    requires SamePeer(s, s')
    ensures Says(s', b, flag) == Says(s, b, flag)
  {
  }

  /** And a packet on the connection that says so sets it, unless it lets the
      service finish a disconnect, which clears all. */
  lemma SaidFlagIsSet(s: Service, d: Dongle, b: Buffer, elapsed: bool, flag: Flag)
    requires s.active && OnHandle(s.handle, b) && Says(s, b, flag)
    ensures var s' := Acl(s, d, b, elapsed).0;
      flag in s'.flags || (s.state == ControlDisconnect && s'.state == Wait && s'.flags == {})
  {
    hide Decode, OnSignal, Says, HandleOk, OnHandle, Task;
    HandleByBytes(s.handle, b);
    SignalSetsFlag(s, b, flag);
    SignalKeepsState(s, b, flag);
    TaskSetsNoFlag(OnSignal(s, Decode(s, b)), d, elapsed);
  }

  lemma SignalKeepsState(s: Service, b: Buffer, flag: Flag)
    requires Says(s, b, flag)
    ensures OnSignal(s, Decode(s, b)).state == s.state
  {
    hide Decode;
    DecodedExactlyWhen(s, b, flag.channel);
  }

  lemma RunSetsNoFlag(s: Service, d: Dongle, e: Surroundings)
    ensures var s' := Run(s, d, e).0;
      s'.flags <= s.flags && s'.kind == s.kind
  {
    hide Task, Accept, ClaimAndConnect;
    TaskSetsNoFlag(s, d, true);
    var (s1, d1) := if s.kind == Wii && s.state == InterruptDisconnect && e.elapsed then Task(s, d, true) else (s, d);
    AcceptSetsNoFlag(s1, Control, ControlSuccess);
    ClaimingClearsFlags(s1, d1);
    SetupSetsNoFlag(s1, e);
  }

  lemma ClaimingClearsFlags(s: Service, d: Dongle)
    ensures ClaimAndConnect(s, d).0.flags == {} && ClaimAndConnect(s, d).0.kind == s.kind
  {
  }

  lemma SetupSetsNoFlag(s: Service, e: Surroundings)
    ensures RunSetup(s, e).flags == s.flags && RunSetup(s, e).kind == s.kind
  {
  }

  // ----- whole runs

  /** The packet of step k gave service i this flag, which it has had since. */
  ghost predicate Heard(states: seq<World>, steps: seq<Step>, k: nat, n: nat, i: nat, flag: Flag)
    requires |states| == |steps| + 1 && k < n <= |steps|
  {
    && steps[k].Packet? && steps[k].i == i && i < |states[k].services| && i < |states[k + 1].services|
    && Says(states[k].services[i], steps[k].buffer, flag)
    && OnHandle(states[k + 1].services[i].handle, steps[k].buffer)
    && forall j | k < j <= n :: i < |states[j].services| && flag in states[j].services[i].flags
  }

  lemma StepFlag(w: World, step: Step, i: nat, flag: Flag)
    requires Possible(w, step) && i < |w.services|
    ensures var w' := After(w, step);
      |w'.services| == |w.services| && w'.services[i].kind == w.services[i].kind &&
      (flag in w'.services[i].flags && flag !in w.services[i].flags ==>
         && step.Packet? && step.i == i && Says(w.services[i], step.buffer, flag) && OnHandle(w'.services[i].handle, step.buffer))
  {
    hide Acl, Run, Says, OnHandle;
    match step
    case Packet(j, buffer, elapsed) =>
      var (s, d) := Acl(w.services[j], w.dongle, buffer, elapsed);
      AclKeepsKind(w.services[j], w.dongle, buffer, elapsed);
      if j == i && flag in s.flags && flag !in w.services[i].flags {
        NewFlagWasSaid(w.services[j], w.dongle, buffer, elapsed, flag);
      }
    case RunOf(j, around) => RunSetsNoFlag(w.services[j], w.dongle, around);
    case _ =>
  }

  lemma AclKeepsKind(s: Service, d: Dongle, b: Buffer, elapsed: bool)
    ensures Acl(s, d, b, elapsed).0.kind == s.kind
  {
    hide Decode, Task, HandleOk;
    var (s1, d1) := if ClaimsOn(s, d, b) then Claim(s, d) else (s, d);
    TaskSetsNoFlag(OnSignal(s1, Decode(s1, b)), d1, elapsed);
  }

  /** A flag that was down at the start goes back to a packet. */
  lemma {:induction false} FlagWasHeard(states: seq<World>, steps: seq<Step>, n: nat, i: nat, flag: Flag) returns (k: nat)
    requires IsRun(states, steps) && n <= |steps| && i < |states[0].services| && i < |states[n].services|
    requires flag !in states[0].services[i].flags && flag in states[n].services[i].flags
    ensures k < n && Heard(states, steps, k, n, i, flag)
  {
    hide After, Says, OnHandle;
    assert n > 0;
    SameServices(states, steps, n - 1);
    StepFlag(states[n - 1], steps[n - 1], i, flag);
    if flag in states[n - 1].services[i].flags {
      k := FlagWasHeard(states, steps, n - 1, i, flag);
    } else {
      k := n - 1;
    }
  }

  lemma {:induction false} SameServices(states: seq<World>, steps: seq<Step>, n: nat)
    requires IsRun(states, steps) && n <= |steps|
    ensures |states[n].services| == |states[0].services|
  {
    hide After;
    if n > 0 {
      SameServices(states, steps, n - 1);
      StepKeepsCount(states[n - 1], steps[n - 1]);
    }
  }

  lemma StepKeepsCount(w: World, step: Step)
    requires Possible(w, step)
    ensures |After(w, step).services| == |w.services|
  {
    hide Acl, Run;
  }
}
