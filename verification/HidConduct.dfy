/** What a service does only when something called for it: claims, answers,
    requests with their identifiers, and every step towards a connection. */
module HidConduct {
  import opened Integers
  import opened HidMachine
  import opened HidHistory
  import opened HidPackets

  // ----- claims

  /** The device asks for the control channel. */
  predicate AsksForControl(b: Buffer) {
    b[8] == 2 && b[12] == 0x11 && b[13] == 0
  }

  /** The dongle expects a device of this kind; a PS3 controller is any that is
      not a Wiimote being connected, coming in or being paired. */
  predicate Expected(kind: Kind, d: Dongle) {
    match kind
    case Bthid => d.incomingHid
    case Wii => d.incomingWii
    case Ps3 => !(d.connectToWii || d.incomingWii || d.pairWithWii)
  }

  /** A packet makes an idle service claim a connection exactly when it asks for
      the control channel, none is claimed, and the dongle expects such a device;
      the service takes over handle and name, and what was expected is used up. */
  lemma PacketClaimsExactlyWhen(s: Service, d: Dongle, b: Buffer)
    ensures ClaimsOn(s, d, b) <==> AsksForControl(b) && !d.claimed && !s.connected && !s.active && Expected(s.kind, d)
    ensures var (s', d') := Claim(s, d);
      && s'.active && s'.handle == d.handle && s'.state == Wait && s'.flags == s.flags && s'.log == s.log + [ClaimedConnection]
      && s'.remoteName == (if s.kind == Ps3 then d.remoteName else s.remoteName)
      && d'.claimed && d'.incomingHid == (d.incomingHid && s.kind != Bthid) && d'.incomingWii == (d.incomingWii && s.kind != Wii)
      && d' == d.(claimed := true, incomingHid := d'.incomingHid, incomingWii := d'.incomingWii)
  {
  }

  /** One packet is never claimed by services of both kinds, PS3 and Wiimote. */
  lemma OneKindClaims(w: Service, p: Service, d: Dongle, b: Buffer)
    requires w.kind == Wii && p.kind == Ps3
    ensures !(ClaimsOn(w, d, b) && ClaimsOn(p, d, b))
  {
    PacketClaimsExactlyWhen(w, d, b);
    PacketClaimsExactlyWhen(p, d, b);
  }

  /** Run claims exactly when an idle service waits and the dongle is to connect to
      such a device; it starts anew, with identifier 0. */
  lemma RunClaimsExactlyWhen(s: Service, d: Dongle)
    ensures ClaimsInRun(s, d) <==>
      s.state == Wait && !d.claimed && !s.connected && !s.active && ((s.kind == Bthid && d.connectToHid) || (s.kind == Wii && d.connectToWii))
    ensures var (s', d') := ClaimAndConnect(s, d);
      && s'.active && s'.handle == d.handle && s'.flags == {} && s'.identifier == 0 && s'.state == ControlConnectRequest
      && s'.log == s.log + [ClaimedConnection, Cleared(ByConnecting), ConnectionRequestSent(Control)]
      && d' == d.(claimed := true)
  {
  }

  // ----- one connection at a time

  /** Whether the events leave a connection claimed and not given up. */
  function Engaged(log: Log): bool {
    if log == [] then false
    else
      match log[|log| - 1]
      case ClaimedConnection => true
      case Cleared(why) => if why == ByReset || why == ByDisconnect then false else Engaged(log[..|log| - 1])
      case _ => Engaged(log[..|log| - 1])
  }

  /** The service is engaged exactly while its field says so, and has never
      claimed a connection while it was. */
  ghost predicate Single(s: Service) {
    && s.active == Engaged(s.log)
    && forall n | 0 <= n < |s.log| && s.log[n] == ClaimedConnection :: !Engaged(s.log[..n])
  }

  /** An event that neither claims nor gives up. */
  predicate Neutral(e: Event) {
    e != ClaimedConnection && e != Cleared(ByReset) && e != Cleared(ByDisconnect)
  }

  lemma EngagedAfter(log: Log, e: Event)
    ensures Engaged(log + [e]) == if e == ClaimedConnection then true
                                  else if e == Cleared(ByReset) || e == Cleared(ByDisconnect) then false else Engaged(log)
  {
    assert (log + [e])[..|log|] == log;
  }

  lemma SingleAfter(s: Service, s': Service, e: Event)
    requires Single(s) && s'.log == s.log + [e] && (e == ClaimedConnection ==> !s.active)
    requires s'.active == if e == ClaimedConnection then true else if Neutral(e) then s.active else false
    ensures Single(s')
  {
    hide Engaged;
    EngagedAfter(s.log, e);
    assert forall n | 0 <= n < |s.log| :: (s.log + [e])[..n] == s.log[..n];
    assert (s.log + [e])[..|s.log|] == s.log;
  }

  lemma {:induction false} SingleAfterAll(s: Service, s': Service, events: Log)
    requires Single(s) && s'.log == s.log + events && s'.active == s.active && forall e | e in events :: Neutral(e)
    ensures Single(s')
    decreases |events|
  {
    hide Single, Neutral;
    if events == [] {
      assert s.log + events == s.log;
      SameLogSingle(s, s');
    } else {
      var n := |events| - 1;
      var before := s.(log := s.log + events[..n]);
      SingleAfterAll(s, before, events[..n]);
      assert s.log + events == (s.log + events[..n]) + [events[n]];
      assert Neutral(events[n]);
      NeutralIsNoClaim(events[n]);
      SingleAfter(before, s', events[n]);
    }
  }

  lemma NeutralIsNoClaim(e: Event)
    requires Neutral(e)
    ensures e != ClaimedConnection
  {
  }

  lemma SameLogSingle(s: Service, s': Service)
    requires Single(s) && s'.log == s.log && s'.active == s.active
    ensures Single(s')
  {
  }

  // ----- requests and what calls for them

  /** Requests among the events. */
  function Requests(events: Log): nat {
    if events == [] then 0
    else
      Requests(events[..|events| - 1]) +
      match events[|events| - 1]
      case ConnectionRequestSent(c) => 1
      case ConfigRequestSent(c) => 1
      case DisconnectRequestSent(c) => 1
      case _ => 0
  }

  /** What must be there before the task, or Run, may do this. */
  predicate CalledFor(s: Service, e: Event) {
    match e
    case ConnectionResponseSent(c) => ConnectionRequested(c) in s.flags
    case ConfigRequestSent(c) => ConnectionRequested(c) in s.flags || (s.kind != Ps3 && ChannelConnected(c) in s.flags)
    case ConnectionRequestSent(c) => c == Interrupt && s.kind != Ps3 && ConfigSucceeded(Control) in s.flags
    case DisconnectRequestSent(c) => c == Control && DisconnectAnswered(Interrupt) in s.flags
    case HciDisconnectSent => DisconnectAnswered(Control) in s.flags
    case BecameConnected => s.state == TurnOnLed || (s.kind == Bthid && ConfigSucceeded(Interrupt) in s.flags)
    case Cleared(why) => why == ByHciDisconnect && DisconnectAnswered(Control) in s.flags
    case _ => false
  }

  /** From s to s' without a claim: each event was called for, and every request
      took the next identifier. */
  ghost predicate Proceeds(s: Service, s': Service, events: Log) {
    && s'.log == s.log + events && s'.active == s.active && s'.kind == s.kind
    && s'.identifier == (s.identifier + Requests(events)) % 0x100
    && (forall e | e in events :: Neutral(e) && CalledFor(s, e))
    && (BecameConnected in events <==> s'.connected && !s.connected)
  }

  lemma OneRequest(e: Event)
    ensures Requests([]) == 0 && Requests([e]) == if e.ConnectionRequestSent? || e.ConfigRequestSent? || e.DisconnectRequestSent? then 1 else 0
  {
    assert [e][..0] == [];
  }

  lemma AcceptRequests(c: Channel)
    ensures Requests([ConnectionResponseSent(c), ConnectionResponseSent(c), ConfigRequestSent(c)]) == 1
  {
    var events := [ConnectionResponseSent(c), ConnectionResponseSent(c), ConfigRequestSent(c)];
    assert events[..2] == [ConnectionResponseSent(c), ConnectionResponseSent(c)];
    assert events[..2][..1] == [ConnectionResponseSent(c)];
    OneRequest(ConnectionResponseSent(c));
  }

  lemma AcceptProceeds(s: Service, c: Channel, next: L2capState) returns (events: Log)
    requires ConnectionRequested(c) in s.flags
    ensures Proceeds(s, Accept(s, c, next), events)
    ensures events == [ConnectionResponseSent(c), ConnectionResponseSent(c), ConfigRequestSent(c)]
  {
    hide Requests;
    events := [ConnectionResponseSent(c), ConnectionResponseSent(c), ConfigRequestSent(c)];
    AcceptRequests(c);
    assert Accept(s, c, next).log == s.log + events;
  }

  lemma AskProceeds(s: Service, e: Event, next: L2capState) returns (events: Log)
    requires CalledFor(s, e) && (e.ConfigRequestSent? || e.ConnectionRequestSent? || e.DisconnectRequestSent?)
    ensures Proceeds(s, Ask(s, e, next), events) && events == [e]
  {
    hide Requests, CalledFor;
    events := [e];
    OneRequest(e);
  }

  lemma StandsStill(s: Service, s': Service)
    requires s'.log == s.log && s'.active == s.active && s'.kind == s.kind && s'.identifier == s.identifier && s'.connected == s.connected
    ensures Proceeds(s, s', [])
  {
    OneRequest(BecameConnected);
    assert s.log + [] == s.log;
  }

  lemma BecomesConnected(s: Service, s': Service) returns (events: Log)
    requires s'.log == s.log + [BecameConnected] && s'.active == s.active && s'.kind == s.kind && s'.identifier == s.identifier
    requires !s.connected && s'.connected && CalledFor(s, BecameConnected)
    ensures Proceeds(s, s', events)
  {
    events := [BecameConnected];
    OneRequest(BecameConnected);
  }

  lemma EstablishedProceeds(s: Service, d: Dongle) returns (events: Log)
    requires ConfigSucceeded(Interrupt) in s.flags && !s.connected
    ensures Proceeds(s, Established(s, d).0, events)
  {
    hide Requests, Proceeds;
    if s.kind == Bthid {
      events := BecomesConnected(s, Established(s, d).0);
    } else {
      events := [];
      StandsStill(s, Established(s, d).0);
    }
  }

  lemma DisconnectProceeds(s: Service, d: Dongle, elapsed: bool) returns (events: Log)
    requires s.state == ControlDisconnect && DisconnectAnswered(Control) in s.flags
    ensures Proceeds(s, Task(s, d, elapsed).0, events)
  {
    events := [HciDisconnectSent, Cleared(ByHciDisconnect)];
    assert events[..1] == [HciDisconnectSent];
    OneRequest(HciDisconnectSent);
    assert Task(s, d, elapsed).0.log == s.log + events;
  }

  /** The task does only what was called for. A service that is connected is done
      and has nothing to do. */
  lemma TaskProceeds(s: Service, d: Dongle, elapsed: bool) returns (events: Log)
    requires s.connected ==> s.state == Done
    ensures Proceeds(s, Task(s, d, elapsed).0, events)
    ensures s.state == Wait && s.kind != Ps3 ==> Task(s, d, elapsed) == (s, d)
  {
    hide Proceeds, Accept, Established, Requests, Ask;
    events := [];
    if s.state == Wait && s.kind == Ps3 && ConnectionRequested(Control) in s.flags {
      events := AcceptProceeds(s, Control, ControlSuccess);
    } else if s.state == InterruptSetup && ConnectionRequested(Interrupt) in s.flags {
      events := AcceptProceeds(s, Interrupt, InterruptConfigRequest);
    } else if s.state == ControlConnectRequest && s.kind != Ps3 && ChannelConnected(Control) in s.flags {
      events := AskProceeds(s, ConfigRequestSent(Control), ControlConfigRequest);
    } else if s.state == ControlConfigRequest && s.kind != Ps3 && ConfigSucceeded(Control) in s.flags {
      events := AskProceeds(s, ConnectionRequestSent(Interrupt), InterruptConnectRequest);
    } else if s.state == InterruptConnectRequest && s.kind != Ps3 && ChannelConnected(Interrupt) in s.flags {
      events := AskProceeds(s, ConfigRequestSent(Interrupt), InterruptConfigRequest);
    } else if s.state == InterruptConfigRequest && ConfigSucceeded(Interrupt) in s.flags {
      events := EstablishedProceeds(s, d);
    } else if s.state == InterruptDisconnect && DisconnectAnswered(Interrupt) in s.flags && (s.kind == Wii ==> elapsed) {
      events := AskProceeds(s, DisconnectRequestSent(Control), ControlDisconnect);
    } else if s.state == ControlDisconnect && DisconnectAnswered(Control) in s.flags {
      events := DisconnectProceeds(s, d, elapsed);
    } else {
      StandsStill(s, Task(s, d, elapsed).0);
    }
  }

  /** So does the rest of Run, when it does not claim. */
  lemma RestOfRunProceeds(s: Service, d: Dongle, e: Surroundings) returns (events: Log)
    requires (s.connected ==> s.state == Done) && !ClaimsInRun(s, d)
    ensures Proceeds(s, (if s.state == Wait then RunWait(s, d).0 else if s.kind == Bthid then s else RunSetup(s, e)), events)
  {
    hide Proceeds, Accept, Requests, ClaimsInRun;
    events := [];
    if s.state == Wait && s.kind != Ps3 && ConnectionRequested(Control) in s.flags {
      events := AcceptProceeds(s, Control, ControlSuccess);
    } else if s.state == Wait {
      StandsStill(s, RunWait(s, d).0);
    } else if s.kind == Bthid {
      StandsStill(s, s);
    } else if s.state == TurnOnLed && RunSetup(s, e).connected {
      events := BecomesConnected(s, RunSetup(s, e));
    } else {
      StandsStill(s, RunSetup(s, e));
    }
  }

  // ----- commands that are received

  /** Commands whose identifier the service takes over. */
  predicate TakesIdentifier(s: Service, b: Buffer, c: Channel) {
    || ConnectSuccess(s.kind, b, c) || ConnectRequest(b, c) || DisconnectAnswer(s, b, c) || OnOwnChannel(s.kind, b, 6, c)
    || (ConfigSuccess(s.kind, b, c) && s.kind != Ps3)
  }

  /** What a command for channel c leaves behind, byte by byte. */
  lemma CommandLeaves(s: Service, b: Buffer, c: Channel)
    ensures var r := OnSignal(s, Decode(s, b));
      && (TakesIdentifier(s, b, c) ==> r.identifier == b[9])
      && (ConfigSuccess(s.kind, b, c) && s.kind == Ps3 ==> r.identifier == s.identifier)
      && (OnOwnChannel(s.kind, b, 4, c) ==> r == s.(log := s.log + [ConfigResponseSent(c)]))
      && (OnOwnChannel(s.kind, b, 6, c) ==>
            && r.log == s.log + [DisconnectResponseSent(c), Cleared(ByReset)]
            && r.state == Wait && r.flags == {} && !r.active && !r.connected)
      && (ConfigSuccess(s.kind, b, c) ==> r.log == s.log + [ConfigResponse(c)] && r.state == s.state)
      && (DisconnectAnswer(s, b, c) ==> r.log == s.log + [DisconnectResponse(c)] && r.state == s.state)
      && (ConnectSuccess(s.kind, b, c) ==> r.log == s.log && Peer(r, c) == Cid(b[12], b[13]) && Peer(r, Other(c)) == Peer(s, Other(c)))
      && (ConnectRequest(b, c) ==> r.log == s.log && Peer(r, c) == Cid(b[14], b[15]) && Peer(r, Other(c)) == Peer(s, Other(c)))
  {
    hide Decode, ConfigSuccess, ConnectSuccess, ConnectRequest, OnOwnChannel, DisconnectAnswer;
    DecodedExactlyWhen(s, b, c);
  }

  /** The device's channel. */
  function Peer(s: Service, c: Channel): Cid {
    if c == Control then s.controlScid else s.interruptScid
  }

  function Other(c: Channel): Channel {
    if c == Control then Interrupt else Control
  }

  /** Any other command leaves everything but the counter of a Wiimote's setup. */
  lemma OtherCommandsLeaveNothing(s: Service, b: Buffer)
    requires forall c :: !TakesIdentifier(s, b, c) && !ConfigSuccess(s.kind, b, c) && !OnOwnChannel(s.kind, b, 4, c)
    ensures var r := OnSignal(s, Decode(s, b)); r == s.(stateCounter := r.stateCounter)
    ensures OnSignal(s, Decode(s, b)).stateCounter ==
      if s.kind == Wii && b[6] == 0x61 && b[7] == 0 && b[8] == 0xA1 && b[9] == 0x21 && b[12] % 0x10 == 0 && b[16] == 0 && b[17] == 0xA6
         && b[18] == 0x20 && (b[19] == 4 || b[19] == 5 || b[19] == 7) && b[20] == 5
      then 300 else s.stateCounter
  {
    hide ConfigSuccess, ConnectSuccess, ConnectRequest, OnOwnChannel, DisconnectAnswer;
    DecodedBytes(s, b);
    DecodedExactlyWhen(s, b, Control);
    DecodedExactlyWhen(s, b, Interrupt);
    assert !TakesIdentifier(s, b, Control) && !TakesIdentifier(s, b, Interrupt);
  }

  // ----- what every step keeps

  /** A state past a channel's configuration request stands on the channel's
      having been opened, from either side. */
  predicate Opened(s: Service) {
    && (AskedControl(s.state) ==> Open(s, Control))
    && (AskedInterrupt(s.state) ==> Open(s, Interrupt))
  }

  predicate Open(s: Service, c: Channel) {
    ConnectionRequested(c) in s.flags || ChannelConnected(c) in s.flags
  }

  ghost predicate Proper(s: Service) {
    Truthful(s) && Single(s) && Opened(s)
  }

  lemma SignalKeepsSingle(s: Service, signal: Signal)
    requires Single(s)
    ensures Single(OnSignal(s, signal))
  {
    hide Single, Engaged;
    var r := OnSignal(s, signal);
    match signal
    case GotConfigResponse(c, id) => SingleAfter(s, r, ConfigResponse(c));
    case GotConfigRequest(c) => SingleAfter(s, r, ConfigResponseSent(c));
    case GotDisconnectResponse(c, id) => SingleAfter(s, r, DisconnectResponse(c));
    case GotDisconnectRequest(c, id) =>
      var answered := Emit(s, DisconnectResponseSent(c));
      SingleAfter(s, answered, DisconnectResponseSent(c));
      SingleAfter(answered, r, Cleared(ByReset));
    case _ => SameLogSingle(s, r);
  }

  lemma SignalKeepsOpened(s: Service, signal: Signal)
    requires Opened(s)
    ensures Opened(OnSignal(s, signal))
  {
  }

  lemma TaskKeepsOpened(s: Service, d: Dongle, elapsed: bool)
    requires Opened(s)
    ensures Opened(Task(s, d, elapsed).0)
  {
    hide Accept, Established;
    AcceptSetsNoFlag(s, Control, ControlSuccess);
    AcceptSetsNoFlag(s, Interrupt, InterruptConfigRequest);
    EstablishedSetsNoFlag(s, d);
    StatesAfter(s, d);
  }

  lemma StatesAfter(s: Service, d: Dongle)
    ensures Accept(s, Control, ControlSuccess).state == ControlSuccess
    ensures Accept(s, Interrupt, InterruptConfigRequest).state == InterruptConfigRequest
  {
  }

  lemma AclKeepsProper(s: Service, d: Dongle, b: Buffer, elapsed: bool)
    requires Proper(s)
    ensures Proper(Acl(s, d, b, elapsed).0)
  {
    hide Truthful, Single, Opened, Claim, OnSignal, Task, Decode, ClaimsOn;
    AclKeeps(s, d, b, elapsed);
    var (s1, d1) := if ClaimsOn(s, d, b) then Claim(s, d) else (s, d);
    if ClaimsOn(s, d, b) {
      PacketClaimsExactlyWhen(s, d, b);
      ClaimKeeps(s, d);
      SingleAfter(s, s1, ClaimedConnection);
      WaitIsOpened(s1);
    }
    var s2 := OnSignal(s1, Decode(s1, b));
    OnSignalKeeps(s1, Decode(s1, b));
    SignalKeepsSingle(s1, Decode(s1, b));
    SignalKeepsOpened(s1, Decode(s1, b));
    ConnectedIsDone(s2);
    TaskKeepsOpened(s2, d1, elapsed);
    var events := TaskProceeds(s2, d1, elapsed);
    ProceedsKeepsSingle(s2, Task(s2, d1, elapsed).0, events);
  }

  lemma WaitIsOpened(s: Service)
    requires s.state == Wait
    ensures Opened(s)
  {
  }

  lemma ConnectedIsDone(s: Service)
    requires Truthful(s)
    ensures s.connected ==> s.state == Done
  {
  }

  lemma ProceedsKeepsSingle(s: Service, s': Service, events: Log)
    requires Single(s) && Proceeds(s, s', events)
    ensures Single(s')
  {
    hide Single, Requests, CalledFor, Neutral;
    SingleAfterAll(s, s', events);
  }

  lemma RunWaitKeepsOpened(s: Service, d: Dongle)
    requires Opened(s)
    ensures Opened(RunWait(s, d).0)
  {
    hide Accept, ClaimAndConnect, ClaimsInRun;
    AcceptSetsNoFlag(s, Control, ControlSuccess);
    StatesAfter(s, d);
    RunClaimsExactlyWhen(s, d);
  }

  lemma RunSetupKeepsOpened(s: Service, e: Surroundings)
    requires Opened(s)
    ensures Opened(RunSetup(s, e))
  {
    SetupSetsNoFlag(s, e);
    SetupStaysConfigured(s, e);
    hide RunSetup;
  }

  lemma SetupStaysConfigured(s: Service, e: Surroundings)
    ensures RunSetup(s, e).state == s.state || (AskedInterrupt(s.state) && AskedInterrupt(RunSetup(s, e).state))
  {
  }

  lemma RunKeepsProper(s: Service, d: Dongle, e: Surroundings)
    requires Proper(s)
    ensures Proper(Run(s, d, e).0)
  {
    hide Truthful, Single, Opened, Task, RunWait, RunSetup, ClaimsInRun;
    RunKeeps(s, d, e);
    var (s1, d1) := if s.kind == Wii && s.state == InterruptDisconnect && e.elapsed then Task(s, d, true) else (s, d);
    ConnectedIsDone(s);
    TaskKeeps(s, d, true);
    TaskKeepsOpened(s, d, true);
    var events := TaskProceeds(s, d, true);
    ProceedsKeepsSingle(s, Task(s, d, true).0, events);
    ConnectedIsDone(s1);
    RunWaitKeepsOpened(s1, d1);
    RunSetupKeepsOpened(s1, e);
    if ClaimsInRun(s1, d1) {
      RunClaimKeepsSingle(s1, d1);
    } else {
      var more := RestOfRunProceeds(s1, d1, e);
      ProceedsKeepsSingle(s1, if s1.state == Wait then RunWait(s1, d1).0 else if s1.kind == Bthid then s1 else RunSetup(s1, e), more);
    }
  }

  lemma RunClaimKeepsSingle(s: Service, d: Dongle)
    requires Single(s) && ClaimsInRun(s, d)
    ensures Single(RunWait(s, d).0) && s.state == Wait
  {
    hide Single;
    var r := ClaimAndConnect(s, d).0;
    var claimed := s.(active := true, log := s.log + [ClaimedConnection]);
    var cleared := claimed.(log := claimed.log + [Cleared(ByConnecting)]);
    SingleAfter(s, claimed, ClaimedConnection);
    SingleAfter(claimed, cleared, Cleared(ByConnecting));
    SingleAfter(cleared, r, ConnectionRequestSent(Control));
  }

  lemma DisconnectKeepsProper(s: Service)
    requires Proper(s)
    ensures Proper(Disconnected(s))
  {
    hide Truthful, Single;
    DisconnectKeeps(s);
    var asked := Emit(s, DisconnectRequestSent(Interrupt));
    SingleAfter(s, asked, DisconnectRequestSent(Interrupt));
    SingleAfter(asked, Disconnected(s), Cleared(ByDisconnect));
  }

  lemma ResetKeepsProper(s: Service)
    requires Proper(s)
    ensures Proper(ResetBy(s, ByReset))
  {
    hide Truthful, Single;
    ResetKeeps(s);
    SingleAfter(s, ResetBy(s, ByReset), Cleared(ByReset));
  }

  lemma FreshServiceIsProper(s: Service)
    ensures Proper(ResetBy(s.(log := []), ByReset))
  {
    hide Truthful, Engaged;
    FreshServiceIsTruthful(s);
    EngagedAfter([], Cleared(ByReset));
    assert ResetBy(s.(log := []), ByReset).log == [Cleared(ByReset)];
  }

  // ----- whole runs

  ghost predicate AllProper(w: World) {
    forall i | 0 <= i < |w.services| :: Proper(w.services[i])
  }

  lemma StepKeepsProper(w: World, step: Step)
    requires AllProper(w) && Possible(w, step)
    ensures AllProper(After(w, step))
  {
    hide Proper, Acl, Run, ResetBy, Disconnected;
    match step
    case Packet(i, buffer, elapsed) => AclKeepsProper(w.services[i], w.dongle, buffer, elapsed);
    case RunOf(i, around) => RunKeepsProper(w.services[i], w.dongle, around);
    case DisconnectCall(i) => DisconnectKeepsProper(w.services[i]);
    case ResetCall(i) => ResetKeepsProper(w.services[i]);
    case HciStep(dongle) =>
    case NewConnection =>
  }

  lemma {:induction false} RunsKeepProper(states: seq<World>, steps: seq<Step>, n: nat)
    requires IsRun(states, steps) && n <= |steps| && AllProper(states[0])
    ensures AllProper(states[n])
  {
    hide AllProper, After;
    if n > 0 {
      RunsKeepProper(states, steps, n - 1);
      StepKeepsProper(states[n - 1], steps[n - 1]);
    }
  }

  /** Over any run, a service claims a connection only after it has given up the
      one before. */
  lemma OneConnectionAtATime(states: seq<World>, steps: seq<Step>, n: nat, i: nat, k: nat)
    requires IsRun(states, steps) && n <= |steps| && AllProper(states[0]) && i < |states[n].services|
    requires k < |states[n].services[i].log| && states[n].services[i].log[k] == ClaimedConnection
    ensures !Engaged(states[n].services[i].log[..k])
  {
    hide After;
    RunsKeepProper(states, steps, n);
    assert Proper(states[n].services[i]);
  }

  /** Whoever is connected, at any point of any run, has had on its own connection
      and for each channel a packet that opened it, from either side, and one that
      says its configuration succeeded, and has not cleared its flags since. */
  lemma ConnectedHeardAll(states: seq<World>, steps: seq<Step>, n: nat, i: nat, c: Channel) returns (k: nat, l: nat)
    requires IsRun(states, steps) && n <= |steps| && AllProper(states[0]) && i < |states[0].services| && i < |states[n].services|
    requires states[0].services[i].flags == {} && states[n].services[i].connected
    ensures k < n && (Heard(states, steps, k, n, i, ConnectionRequested(c)) || Heard(states, steps, k, n, i, ChannelConnected(c)))
    ensures l < n && Heard(states, steps, l, n, i, ConfigSucceeded(c))
  {
    hide After, Heard;
    RunsKeepProper(states, steps, n);
    var s := states[n].services[i];
    assert Proper(s);
    ConnectedHasFlags(s, c);
    l := FlagWasHeard(states, steps, n, i, ConfigSucceeded(c));
    if ConnectionRequested(c) in s.flags {
      k := FlagWasHeard(states, steps, n, i, ConnectionRequested(c));
    } else {
      k := FlagWasHeard(states, steps, n, i, ChannelConnected(c));
    }
  }

  lemma ConnectedHasFlags(s: Service, c: Channel)
    requires Proper(s) && s.connected
    ensures ConfigSucceeded(c) in s.flags && Open(s, c)
  {
  }
}
