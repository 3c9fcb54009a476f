/** What the history of a HID service shows whenever it becomes connected or
    drops its HCI connection, and how often connections are claimed, over every
    interleaving of the services on a dongle. */
module HidHistory {
  import opened Integers
  import opened HidMachine

  // ----- histories

  /** The events since the flags were last cleared. */
  function Since(log: Log): Log {
    if log == [] then []
    else if log[|log| - 1].Cleared? then []
    else Since(log[..|log| - 1]) + [log[|log| - 1]]
  }

  datatype Clearing = Never | Last(why: Clear)

  function LastClear(log: Log): Clearing {
    if log == [] then Never
    else if log[|log| - 1].Cleared? then Last(log[|log| - 1].why)
    else LastClear(log[..|log| - 1])
  }

  predicate Before(log: Log, a: Event, b: Event) {
    exists i, j | 0 <= i < j < |log| :: log[i] == a && log[j] == b
  }

  /** Both channels were configured, and asked for their configuration in
      order, since the flags were last cleared. */
  ghost predicate ChannelsConfigured(log: Log) {
    var r := Since(log);
    && ConfigResponse(Control) in r && ConfigResponse(Interrupt) in r
    && Before(r, ConfigRequestSent(Control), ConfigRequestSent(Interrupt))
  }

  /** disconnect() was called, and both channels have answered since. */
  ghost predicate ChannelsDisconnected(log: Log) {
    && LastClear(log) == Last(ByDisconnect)
    && DisconnectResponse(Interrupt) in Since(log) && DisconnectResponse(Control) in Since(log)
  }

  /** What must have happened before an event may. */
  ghost predicate Justified(log: Log, e: Event) {
    match e
    case BecameConnected => ChannelsConfigured(log)
    case HciDisconnectSent => ChannelsDisconnected(log)
    case ConfigRequestSent(c) =>
      c == Interrupt ==> ConfigRequestSent(Control) in Since(log) && ConfigResponse(Control) in Since(log)
    case DisconnectRequestSent(c) =>
      c == Control ==> LastClear(log) == Last(ByDisconnect) && DisconnectResponse(Interrupt) in Since(log)
    case _ => true
  }

  ghost predicate GoodLog(log: Log) {
    forall n | 0 <= n < |log| :: Justified(log[..n], log[n])
  }

  lemma GoodLogGrows(log: Log, e: Event)
    requires GoodLog(log) && Justified(log, e)
    ensures GoodLog(log + [e])
  {
    hide Justified;
    forall n | 0 <= n < |log + [e]|
      ensures Justified((log + [e])[..n], (log + [e])[n])
    {
      assert (log + [e])[..n] == log[..n];
    }
    assert log[..|log|] == log;
  }

  lemma SinceGrows(log: Log, e: Event)
    ensures !e.Cleared? ==> Since(log + [e]) == Since(log) + [e] && LastClear(log + [e]) == LastClear(log)
    ensures e.Cleared? ==> Since(log + [e]) == [] && LastClear(log + [e]) == Last(e.why)
  {
    assert (log + [e])[..|log|] == log;
  }

  // ----- the invariant of one service

  predicate AskedControl(state: L2capState) {
    state in {ControlConfigRequest, ControlSuccess} || ConfiguredControl(state)
  }

  predicate ConfiguredControl(state: L2capState) {
    state in {InterruptSetup, InterruptConnectRequest} || AskedInterrupt(state)
  }

  predicate AskedInterrupt(state: L2capState) {
    state == InterruptConfigRequest || ConfiguredInterrupt(state)
  }

  predicate ConfiguredInterrupt(state: L2capState) {
    state in {CheckMotionPlus, CheckExtension, InitMotionPlus, EnableSixaxis, TurnOnLed, Done}
  }

  predicate Disconnecting(state: L2capState) {
    state in {InterruptDisconnect, ControlDisconnect}
  }

  /** Every flag stands for an event since the flags were cleared. */
  ghost predicate FlagsTellEvents(flags: set<Flag>, r: Log) {
    && (forall c | ConfigSucceeded(c) in flags :: ConfigResponse(c) in r)
    && (forall c | DisconnectAnswered(c) in flags :: DisconnectResponse(c) in r)
  }

  /** Every state stands for commands sent since then. */
  ghost predicate StateTellsEvents(state: L2capState, flags: set<Flag>, r: Log, last: Clearing) {
    && (AskedControl(state) ==> ConfigRequestSent(Control) in r)
    && (ConfiguredControl(state) ==> ConfigSucceeded(Control) in flags)
    && (AskedInterrupt(state) ==> Before(r, ConfigRequestSent(Control), ConfigRequestSent(Interrupt)))
    && (ConfiguredInterrupt(state) ==> ConfigSucceeded(Interrupt) in flags)
    && (Disconnecting(state) ==> last == Last(ByDisconnect))
    && (state == ControlDisconnect ==> DisconnectAnswered(Interrupt) in flags)
  }

  ghost predicate Truthful(s: Service) {
    && GoodLog(s.log)
    && FlagsTellEvents(s.flags, Since(s.log))
    && StateTellsEvents(s.state, s.flags, Since(s.log), LastClear(s.log))
    && (s.connected ==> ChannelsConfigured(s.log) && BecameConnected in Since(s.log))
    && (s.connected ==> s.state == Done)
  }

  lemma BeforeGrows(r: Log, a: Event, b: Event, e: Event)
    ensures Before(r, a, b) ==> Before(r + [e], a, b)
    ensures a in r ==> Before(r + [b], a, b)
  {
    if i, j :| 0 <= i < j < |r| && r[i] == a && r[j] == b {
      assert (r + [e])[i] == a && (r + [e])[j] == b;
    }
    if i :| 0 <= i < |r| && r[i] == a {
      assert (r + [b])[i] == a && (r + [b])[|r|] == b;
    }
  }

  /** An event that clears nothing leaves a truthful service truthful. */
  lemma EmitKeeps(s: Service, e: Event)
    requires Truthful(s) && Justified(s.log, e) && !e.Cleared?
    ensures Truthful(Emit(s, e))
    ensures Since(Emit(s, e).log) == Since(s.log) + [e] && LastClear(Emit(s, e).log) == LastClear(s.log)
  {
    hide Justified, GoodLog, Since, LastClear, Before;
    SinceGrows(s.log, e);
    GoodLogGrows(s.log, e);
    BeforeGrows(Since(s.log), ConfigRequestSent(Control), ConfigRequestSent(Interrupt), e);
  }

  /** Clearing the flags in a state that stands for nothing. */
  lemma ClearKeeps(s: Service, why: Clear)
    requires GoodLog(s.log) && !s.connected
    requires !AskedControl(s.state) && (Disconnecting(s.state) ==> s.state == InterruptDisconnect && why == ByDisconnect)
    ensures Truthful(ClearFlags(s, why))
  {
    hide GoodLog, Since, LastClear, Before;
    SinceGrows(s.log, Cleared(why));
    GoodLogGrows(s.log, Cleared(why));
  }

  // ----- what each operation keeps

  lemma ResetKeeps(s: Service)
    requires Truthful(s)
    ensures Truthful(ResetBy(s, ByReset))
  {
    ClearKeeps(s.(connected := false, active := false, state := Wait), ByReset);
  }

  lemma DisconnectKeeps(s: Service)
    requires Truthful(s)
    ensures Truthful(Disconnected(s))
  {
    hide GoodLog, Since, LastClear, Before;
    EmitKeeps(s, DisconnectRequestSent(Interrupt));
    var asked := Emit(s.(identifier := Next(s.identifier)), DisconnectRequestSent(Interrupt));
    ClearKeeps(asked.(connected := false, active := false, state := InterruptDisconnect), ByDisconnect);
  }

  lemma ClaimKeeps(s: Service, d: Dongle)
    requires Truthful(s) && !s.connected
    ensures Truthful(Claim(s, d).0) && !Claim(s, d).0.connected
  {
    hide GoodLog, Since, LastClear, Before;
    EmitKeeps(s.(state := Wait), ClaimedConnection);
  }

  lemma OnSignalKeeps(s: Service, signal: Signal)
    requires Truthful(s)
    ensures Truthful(OnSignal(s, signal))
  {
    hide GoodLog, Since, LastClear, Before;
    match signal
    case Ignored =>
    case GotConnectionResponse(c, id, scid) =>
    case GotConnectionRequest(c, id, scid) =>
    case GotConfigResponse(c, id) => EmitKeeps(s, ConfigResponse(c));
    case GotConfigRequest(c) => EmitKeeps(s, ConfigResponseSent(c));
    case GotDisconnectRequest(c, id) =>
      EmitKeeps(s, DisconnectResponseSent(c));
      ResetKeeps(Emit(s.(identifier := id), DisconnectResponseSent(c)));
    case GotDisconnectResponse(c, id) => EmitKeeps(s, DisconnectResponse(c));
    case GotInactiveMotionPlus =>
  }

  /** The configuration request that moves on a state: for the control channel
      out of a waiting state, for the interrupt channel once the control channel
      is configured. */
  lemma AskedKeeps(s: Service, c: Channel, id: uint8, next: L2capState)
    requires Truthful(s) && !s.connected
    requires if c == Control then next == ControlSuccess || next == ControlConfigRequest
             else next == InterruptConfigRequest && ConfiguredControl(s.state)
    ensures Truthful(Emit(s.(identifier := id, state := next), ConfigRequestSent(c)))
  {
    hide GoodLog, Since, LastClear;
    EmitKeeps(s, ConfigRequestSent(c));
    BeforeGrows(Since(s.log), ConfigRequestSent(Control), ConfigRequestSent(Interrupt), ConfigRequestSent(c));
  }

  lemma AcceptKeeps(s: Service, c: Channel, next: L2capState)
    requires Truthful(s) && !s.connected
    requires if c == Control then next == ControlSuccess else next == InterruptConfigRequest && ConfiguredControl(s.state)
    ensures Truthful(Accept(s, c, next))
  {
    hide GoodLog, Since, LastClear, Before;
    EmitKeeps(s, ConnectionResponseSent(c));
    EmitKeeps(Emit(s, ConnectionResponseSent(c)), ConnectionResponseSent(c));
    AskedKeeps(Emit(Emit(s, ConnectionResponseSent(c)), ConnectionResponseSent(c)), c, Next(s.identifier), next);
  }

  lemma ConnectKeeps(s: Service)
    requires Truthful(s) && ConfiguredInterrupt(s.state)
    ensures Truthful(Connect(s).(state := Done))
  {
    hide GoodLog, Since, LastClear, Before;
    EmitKeeps(s, BecameConnected);
  }

  lemma EstablishedKeeps(s: Service, d: Dongle)
    requires Truthful(s) && s.state == InterruptConfigRequest && ConfigSucceeded(Interrupt) in s.flags
    ensures Truthful(Established(s, d).0)
  {
    hide GoodLog, Since, LastClear, Before;
    if s.kind == Bthid {
      ConnectKeeps(s.(state := Done));
    }
  }

  lemma TaskKeeps(s: Service, d: Dongle, elapsed: bool)
    requires Truthful(s)
    ensures Truthful(Task(s, d, elapsed).0)
  {
    hide GoodLog, Since, LastClear, Before, Established, Accept;
    match s.state
    case Wait =>
      if !s.connected { AcceptKeeps(s, Control, ControlSuccess); }
    case InterruptSetup =>
      AcceptKeeps(s, Interrupt, InterruptConfigRequest);
    case ControlConnectRequest =>
      AskedKeeps(s, Control, Next(s.identifier), ControlConfigRequest);
    case ControlConfigRequest =>
      EmitKeeps(s, ConnectionRequestSent(Interrupt));
    case InterruptConnectRequest =>
      AskedKeeps(s, Interrupt, Next(s.identifier), InterruptConfigRequest);
    case InterruptConfigRequest =>
      if ConfigSucceeded(Interrupt) in s.flags { EstablishedKeeps(s, d); }
    case InterruptDisconnect =>
      if DisconnectAnswered(Interrupt) in s.flags { EmitKeeps(s, DisconnectRequestSent(Control)); }
    case ControlDisconnect =>
      if DisconnectAnswered(Control) in s.flags {
        EmitKeeps(s, HciDisconnectSent);
        ClearKeeps(Emit(s, HciDisconnectSent).(handle := 0xFFFF, state := Wait), ByHciDisconnect);
      }
    case _ =>
  }

  lemma AclKeeps(s: Service, d: Dongle, b: Buffer, elapsed: bool)
    requires Truthful(s)
    ensures Truthful(Acl(s, d, b, elapsed).0)
  {
    hide Truthful, Claim, OnSignal, Task, Decode;
    if ClaimsOn(s, d, b) {
      ClaimKeeps(s, d);
    }
    var (s1, d1) := if ClaimsOn(s, d, b) then Claim(s, d) else (s, d);
    OnSignalKeeps(s1, Decode(s1, b));
    TaskKeeps(OnSignal(s1, Decode(s1, b)), d1, elapsed);
  }

  lemma RunWaitKeeps(s: Service, d: Dongle)
    requires Truthful(s) && s.state == Wait
    ensures Truthful(RunWait(s, d).0)
  {
    hide GoodLog, Since, LastClear, Before, Accept;
    if ClaimsInRun(s, d) {
      EmitKeeps(s, ClaimedConnection);
      var claimed := Emit(s.(active := true, handle := d.handle, identifier := 0), ClaimedConnection);
      ClearKeeps(claimed, ByConnecting);
      EmitKeeps(ClearFlags(claimed, ByConnecting), ConnectionRequestSent(Control));
    } else {
      AcceptKeeps(s, Control, ControlSuccess);
    }
  }

  lemma RunSetupKeeps(s: Service, e: Surroundings)
    requires Truthful(s)
    ensures Truthful(RunSetup(s, e))
  {
    hide GoodLog, Since, LastClear, Before, Connect;
    if s.state == TurnOnLed {
      ConnectKeeps(s);
    }
  }

  lemma RunKeeps(s: Service, d: Dongle, e: Surroundings)
    requires Truthful(s)
    ensures Truthful(Run(s, d, e).0)
  {
    hide Truthful, Task, RunWait, RunSetup;
    TaskKeeps(s, d, true);
    var (s1, d1) := if s.kind == Wii && s.state == InterruptDisconnect && e.elapsed then Task(s, d, true) else (s, d);
    if s1.state == Wait {
      RunWaitKeeps(s1, d1);
    }
    RunSetupKeeps(s1, e);
  }

  // ----- claims

  function Claims(log: Log): nat {
    if log == [] then 0
    else Claims(log[..|log| - 1]) + if log[|log| - 1] == ClaimedConnection then 1 else 0
  }

  lemma ClaimsGrow(log: Log, e: Event)
    ensures Claims(log + [e]) == Claims(log) + if e == ClaimedConnection then 1 else 0
  {
    assert (log + [e])[..|log|] == log;
  }

  lemma EmitClaims(s: Service, e: Event)
    ensures Claims(Emit(s, e).log) == Claims(s.log) + if e == ClaimedConnection then 1 else 0
  {
    ClaimsGrow(s.log, e);
  }

  /** A claim is made only when the flag is down, and raises it; nothing in a
      service lowers it. */
  ghost predicate ClaimsOnce(s: Service, d: Dongle, s': Service, d': Dongle) {
    && Claims(s.log) <= Claims(s'.log)
    && (d.claimed ==> d'.claimed && Claims(s'.log) == Claims(s.log))
    && (!d.claimed ==> Claims(s'.log) == Claims(s.log) + if d'.claimed then 1 else 0)
  }

  lemma OnSignalClaimsNothing(s: Service, signal: Signal)
    ensures Claims(OnSignal(s, signal).log) == Claims(s.log)
  {
    hide Claims;
    match signal
    case GotConfigResponse(c, id) => EmitClaims(s, ConfigResponse(c));
    case GotConfigRequest(c) => EmitClaims(s, ConfigResponseSent(c));
    case GotDisconnectRequest(c, id) =>
      EmitClaims(s, DisconnectResponseSent(c));
      EmitClaims(Emit(s, DisconnectResponseSent(c)), Cleared(ByReset));
    case GotDisconnectResponse(c, id) => EmitClaims(s, DisconnectResponse(c));
    case _ =>
  }

  lemma AcceptClaimsNothing(s: Service, c: Channel, next: L2capState)
    ensures Claims(Accept(s, c, next).log) == Claims(s.log)
  {
    hide Claims;
    var one := Emit(s, ConnectionResponseSent(c));
    var two := Emit(one, ConnectionResponseSent(c));
    EmitClaims(s, ConnectionResponseSent(c));
    EmitClaims(one, ConnectionResponseSent(c));
    EmitClaims(two, ConfigRequestSent(c));
  }

  lemma TaskClaimsNothing(s: Service, d: Dongle, elapsed: bool)
    ensures var (s', d') := Task(s, d, elapsed);
      Claims(s'.log) == Claims(s.log) && d'.claimed == d.claimed
  {
    hide Claims, Accept, Established;
    match s.state
    case Wait => AcceptClaimsNothing(s, Control, ControlSuccess);
    case InterruptSetup => AcceptClaimsNothing(s, Interrupt, InterruptConfigRequest);
    case ControlConnectRequest => ClaimsGrow(s.log, ConfigRequestSent(Control));
    case ControlConfigRequest => ClaimsGrow(s.log, ConnectionRequestSent(Interrupt));
    case InterruptConnectRequest => ClaimsGrow(s.log, ConfigRequestSent(Interrupt));
    case InterruptConfigRequest => EstablishedClaimsNothing(s, d);
    case InterruptDisconnect => ClaimsGrow(s.log, DisconnectRequestSent(Control));
    case ControlDisconnect =>
      ClaimsGrow(s.log, HciDisconnectSent);
      ClaimsGrow(s.log + [HciDisconnectSent], Cleared(ByHciDisconnect));
    case _ =>
  }

  lemma EstablishedClaimsNothing(s: Service, d: Dongle)
    ensures var (s', d') := Established(s, d);
      Claims(s'.log) == Claims(s.log) && d'.claimed == d.claimed
  {
    hide Claims;
    ClaimsGrow(s.log, BecameConnected);
  }

  lemma AclClaimsOnce(s: Service, d: Dongle, b: Buffer, elapsed: bool)
    ensures var (s', d') := Acl(s, d, b, elapsed); ClaimsOnce(s, d, s', d')
  {
    hide Claims, OnSignal, Task, Decode, HandleOk;
    EmitClaims(s, ClaimedConnection);
    var (s1, d1) := if ClaimsOn(s, d, b) then Claim(s, d) else (s, d);
    assert Claims(s1.log) == Claims(s.log) + if ClaimsOn(s, d, b) then 1 else 0;
    OnSignalClaimsNothing(s1, Decode(s1, b));
    TaskClaimsNothing(OnSignal(s1, Decode(s1, b)), d1, elapsed);
  }

  lemma RunWaitClaimsOnce(s: Service, d: Dongle)
    ensures var (s', d') := RunWait(s, d); ClaimsOnce(s, d, s', d')
  {
    hide Claims, Accept;
    AcceptClaimsNothing(s, Control, ControlSuccess);
    EmitClaims(s, ClaimedConnection);
    var claimed := Emit(s, ClaimedConnection);
    EmitClaims(claimed, Cleared(ByConnecting));
    EmitClaims(Emit(claimed, Cleared(ByConnecting)), ConnectionRequestSent(Control));
  }

  lemma RunClaimsOnce(s: Service, d: Dongle, e: Surroundings)
    ensures var (s', d') := Run(s, d, e); ClaimsOnce(s, d, s', d')
  {
    hide Claims, Task, RunWait;
    TaskClaimsNothing(s, d, true);
    var (s1, d1) := if s.kind == Wii && s.state == InterruptDisconnect && e.elapsed then Task(s, d, true) else (s, d);
    RunWaitClaimsOnce(s1, d1);
    EmitClaims(s1, BecameConnected);
  }

  // ----- a dongle with its services

  /** A dongle, its registered services, and how often the claim flag has been
      taken down. */
  datatype World = World(dongle: Dongle, services: seq<Service>, resets: nat)

  /** One packet or one Run reaching one service, one call by the sketch, or one
      step of the dongle, which may change anything of its own but raises no
      claim. */
  datatype Step =
    | Packet(i: nat, buffer: Buffer, elapsed: bool)
    | RunOf(i: nat, around: Surroundings)
    | DisconnectCall(i: nat)
    | ResetCall(i: nat)
    | HciStep(dongle: Dongle)
    | NewConnection

  ghost predicate Possible(w: World, step: Step) {
    match step
    case HciStep(dongle) => dongle.claimed == w.dongle.claimed
    case NewConnection => true
    case _ => step.i < |w.services|
  }

  function After(w: World, step: Step): World
    requires Possible(w, step)
  {
    match step
    case Packet(i, buffer, elapsed) =>
      var (s, d) := Acl(w.services[i], w.dongle, buffer, elapsed);
      w.(services := w.services[i := s], dongle := d)
    case RunOf(i, around) =>
      var (s, d) := Run(w.services[i], w.dongle, around);
      w.(services := w.services[i := s], dongle := d)
    case DisconnectCall(i) => w.(services := w.services[i := Disconnected(w.services[i])])
    case ResetCall(i) => w.(services := w.services[i := ResetBy(w.services[i], ByReset)])
    case HciStep(dongle) => w.(dongle := dongle)
    case NewConnection => w.(dongle := w.dongle.(claimed := false), resets := w.resets + 1)
  }

  function TotalClaims(services: seq<Service>): nat {
    if services == [] then 0 else TotalClaims(services[..|services| - 1]) + Claims(services[|services| - 1].log)
  }

  lemma {:induction false} TotalAfterUpdate(services: seq<Service>, i: nat, s: Service)
    requires i < |services|
    ensures TotalClaims(services[i := s]) == TotalClaims(services) - Claims(services[i].log) + Claims(s.log)
  {
    hide Claims;
    var n := |services| - 1;
    if i < n {
      TotalAfterUpdate(services[..n], i, s);
      assert services[i := s][..n] == services[..n][i := s];
    } else {
      assert services[i := s][..n] == services[..n];
    }
  }

  /** Claims made so far, and the one in force. */
  ghost predicate ClaimsBounded(w: World, before: int) {
    TotalClaims(w.services) <= before + w.resets + if w.dongle.claimed then 1 else 0
  }

  ghost predicate AllTruthful(w: World) {
    forall i | 0 <= i < |w.services| :: Truthful(w.services[i])
  }

  lemma StepKeepsHistory(w: World, step: Step)
    requires AllTruthful(w) && Possible(w, step)
    ensures AllTruthful(After(w, step))
  {
    hide Truthful, Acl, Run, ResetBy, Disconnected;
    match step
    case Packet(i, buffer, elapsed) => AclKeeps(w.services[i], w.dongle, buffer, elapsed);
    case RunOf(i, around) => RunKeeps(w.services[i], w.dongle, around);
    case DisconnectCall(i) => DisconnectKeeps(w.services[i]);
    case ResetCall(i) => ResetKeeps(w.services[i]);
    case HciStep(dongle) =>
    case NewConnection =>
  }

  lemma StepKeepsClaims(w: World, step: Step, before: int)
    requires ClaimsBounded(w, before) && Possible(w, step)
    ensures ClaimsBounded(After(w, step), before)
  {
    hide TotalClaims, Claims, Acl, Run;
    match step
    case Packet(i, buffer, elapsed) =>
      AclClaimsOnce(w.services[i], w.dongle, buffer, elapsed);
      TotalAfterUpdate(w.services, i, After(w, step).services[i]);
    case RunOf(i, around) =>
      RunClaimsOnce(w.services[i], w.dongle, around);
      TotalAfterUpdate(w.services, i, After(w, step).services[i]);
    case DisconnectCall(i) =>
      var s := w.services[i];
      EmitClaims(s, DisconnectRequestSent(Interrupt));
      EmitClaims(Emit(s, DisconnectRequestSent(Interrupt)), Cleared(ByDisconnect));
      TotalAfterUpdate(w.services, i, Disconnected(s));
    case ResetCall(i) =>
      EmitClaims(w.services[i], Cleared(ByReset));
      TotalAfterUpdate(w.services, i, ResetBy(w.services[i], ByReset));
    case HciStep(dongle) =>
    case NewConnection =>
  }

  // ----- whole runs

  ghost predicate IsRun(states: seq<World>, steps: seq<Step>) {
    && |states| == |steps| + 1
    && forall k | 0 <= k < |steps| :: Possible(states[k], steps[k]) && states[k + 1] == After(states[k], steps[k])
  }

  lemma {:induction false} RunsKeepHistory(states: seq<World>, steps: seq<Step>, n: nat)
    requires IsRun(states, steps) && n <= |steps| && AllTruthful(states[0])
    ensures AllTruthful(states[n])
  {
    hide AllTruthful, After;
    if n > 0 {
      RunsKeepHistory(states, steps, n - 1);
      StepKeepsHistory(states[n - 1], steps[n - 1]);
    }
  }

  /** A service as its constructor leaves it. */
  lemma FreshServiceIsTruthful(s: Service)
    ensures Truthful(ResetBy(s.(log := []), ByReset))
  {
    ClearKeeps(s.(log := [], connected := false, active := false, state := Wait), ByReset);
  }

  /** Connection history, at any point of any run: a connected service has had
      both channels configured since its flags were cleared, and it was so
      whenever it became connected; each hci_disconnect followed a disconnect()
      and both channels' answers to it. */
  lemma ConnectionHistory(states: seq<World>, steps: seq<Step>, n: nat, i: nat, k: nat)
    requires IsRun(states, steps) && n <= |steps| && AllTruthful(states[0]) && i < |states[n].services|
    ensures var s := states[n].services[i];
      && (s.connected ==> ChannelsConfigured(s.log) && BecameConnected in Since(s.log))
      && (k < |s.log| && s.log[k] == BecameConnected ==> ChannelsConfigured(s.log[..k]))
      && (k < |s.log| && s.log[k] == HciDisconnectSent ==> ChannelsDisconnected(s.log[..k]))
  {
    hide ChannelsConfigured, ChannelsDisconnected;
    RunsKeepHistory(states, steps, n);
    var s := states[n].services[i];
    assert Truthful(s);
    if k < |s.log| {
      assert Justified(s.log[..k], s.log[k]);
    }
  }

  lemma {:induction false} RunsKeepClaims(states: seq<World>, steps: seq<Step>, n: nat, before: int)
    requires IsRun(states, steps) && n <= |steps| && ClaimsBounded(states[0], before)
    ensures ClaimsBounded(states[n], before)
  {
    hide ClaimsBounded, After;
    if n > 0 {
      RunsKeepClaims(states, steps, n - 1, before);
      StepKeepsClaims(states[n - 1], steps[n - 1], before);
    }
  }

  /** Claim exclusion: over any interleaving on any services, from any state,
      the claims made are at most the resets of the flag and one more, less the
      one that was in force at the start. */
  lemma ClaimExclusion(states: seq<World>, steps: seq<Step>, n: nat)
    requires IsRun(states, steps) && n <= |steps|
    ensures TotalClaims(states[n].services) - TotalClaims(states[0].services)
         <= states[n].resets - states[0].resets + (if states[n].dongle.claimed then 1 else 0) - if states[0].dongle.claimed then 1 else 0
  {
    hide TotalClaims;
    RunsKeepClaims(states, steps, n,
      TotalClaims(states[0].services) - states[0].resets - if states[0].dongle.claimed then 1 else 0);
  }
}
