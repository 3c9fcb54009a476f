/** What a length byte does to the rest of the stream. The parser takes the
    lengths of configurations, interfaces and endpoints as given, so what their
    length bytes add or leave out is read as the start of the next descriptor. */
module DescriptorLengths {
  import opened Integers
  import opened DescriptorStream

  function Boundary(c: Context): State {
    State(Gathering([]), c)
  }

  /** Some interface descriptor matches the filter. */
  predicate CanMatch(f: Filter) {
    f.useOr ==> f.mask / 4 % 2 == 1
  }

  /** Something can still be reported. */
  predicate Live(f: Filter, c: Context) {
    CanMatch(f) || c.good
  }

  /** Two contexts no stream tells apart. */
  predicate Alike(f: Filter, a: Context, b: Context) {
    && a.good == b.good
    && (a.good ==> a.iface == b.iface && a.alt == b.alt && a.protocol == b.protocol)
    && (Live(f, a) ==> a.conf == b.conf)
  }

  /** Phases the parser comes to from a boundary. */
  predicate Sound(p: Phase) {
    match p
    case Skipping(left) => left > 0
    case Gathering(held) => |held| < 2 || (Fixed(held[1]) && |held| < Size(held[1]))
  }

  /** Whatever follows, the parser in state s reports what it would report from
      a boundary with context c. */
  ghost predicate LikeBoundary(f: Filter, s: State, c: Context) {
    forall tail: seq<uint8> :: FeedAll(f, s, tail).calls == FeedAll(f, Boundary(c), tail).calls
  }

  lemma {:induction false} StaysSound(f: Filter, s: State, bytes: seq<uint8>)
    requires Sound(s.phase)
    ensures Sound(FeedAll(f, s, bytes).state.phase)
  {
    hide Matches;
    if bytes != [] {
      StaysSound(f, s, bytes[..|bytes| - 1]);
    }
  }

  // ----- alike contexts

  lemma AlikeStep(f: Filter, p: Phase, a: Context, b: Context, x: uint8)
    requires Sound(p) && Alike(f, a, b)
    ensures var l, r := Feed(f, State(p, a), x), Feed(f, State(p, b), x);
      l.calls == r.calls && l.state.phase == r.state.phase && Alike(f, l.state.context, r.state.context)
  {
    if !CanMatch(f) {
      NoneMatches(f);
    }
    hide Matches;
  }

  lemma NoneMatches(f: Filter)
    requires !CanMatch(f)
    ensures forall cls, subclass, protocol :: !Matches(f, cls, subclass, protocol)
  {
  }

  lemma {:induction false} AlikeForever(f: Filter, p: Phase, a: Context, b: Context, bytes: seq<uint8>)
    requires Sound(p) && Alike(f, a, b)
    ensures var l, r := FeedAll(f, State(p, a), bytes), FeedAll(f, State(p, b), bytes);
      l.calls == r.calls && l.state.phase == r.state.phase && Alike(f, l.state.context, r.state.context)
  {
    hide Feed, Alike, Sound;
    if bytes != [] {
      var n := |bytes| - 1;
      AlikeForever(f, p, a, b, bytes[..n]);
      StaysSound(f, State(p, a), bytes[..n]);
      var l, r := FeedAll(f, State(p, a), bytes[..n]).state, FeedAll(f, State(p, b), bytes[..n]).state;
      AlikeStep(f, l.phase, l.context, r.context, bytes[n]);
    }
  }

  /** Where no interface matches and none has matched, nothing is reported. */
  lemma {:induction false} DeadStaysSilent(f: Filter, s: State, bytes: seq<uint8>)
    requires Sound(s.phase) && !Live(f, s.context)
    ensures FeedAll(f, s, bytes).calls == [] && !FeedAll(f, s, bytes).state.context.good
  {
    NoneMatches(f);
    hide Matches;
    if bytes != [] {
      DeadStaysSilent(f, s, bytes[..|bytes| - 1]);
      StaysSound(f, s, bytes[..|bytes| - 1]);
    }
  }

  // ----- a probe that is reported from every live boundary

  function MatchingInterface(f: Filter): (d: seq<uint8>)
    ensures |d| == 9 && d[0] == 9 && d[1] == INTERFACE
    ensures CanMatch(f) ==> Matches(f, d[5], d[6], d[7])
  {
    [9, INTERFACE, 0, 0, 1, f.classId, f.subclassId, if f.useOr then 1 else f.protocolId, 0]
  }

  const ANY_ENDPOINT: seq<uint8> := [7, ENDPOINT, 0x81, 2, 64, 0, 1]

  function Probe(f: Filter): (r: seq<uint8>)
    ensures 7 <= |r| <= 16 && !Fixed(r[0]) && r[0] > 1
  {
    if CanMatch(f) then MatchingInterface(f) + ANY_ENDPOINT else ANY_ENDPOINT
  }

  /** Any boundary context reports the probe once, with its configuration. */
  lemma ProbeIsReported(f: Filter, c: Context)
    requires Live(f, c)
    ensures |FeedAll(f, Boundary(c), Probe(f)).calls| == 1
    ensures FeedAll(f, Boundary(c), Probe(f)).calls[0].conf == c.conf
  {
    hide FeedAll, Feed, Matches;
    if CanMatch(f) {
      var iface := MatchingInterface(f);
      FeedDescriptor(f, c, iface);
      FeedAllAppend(f, Boundary(c), iface, ANY_ENDPOINT);
      FeedDescriptor(f, Context(true, c.conf, iface[2], iface[3], iface[7]), ANY_ENDPOINT);
    } else {
      FeedDescriptor(f, c, ANY_ENDPOINT);
    }
  }

  function Zeros(n: nat): (r: seq<uint8>)
    ensures |r| == n && forall i | 0 <= i < n :: r[i] == 0
  {
    seq(n, i => 0)
  }

  /** From a boundary, a zero first hides the probe. */
  lemma ZerosHideProbe(f: Filter, c: Context, n: nat)
    requires 0 < n < 0xFF00
    ensures FeedAll(f, Boundary(c), Zeros(n) + Probe(f)).calls == []
  {
    hide FeedAll, Feed, Probe, Zeros;
    var bytes := Zeros(n) + Probe(f);
    assert bytes == [bytes[0], bytes[1]] + bytes[2..];
    ShortLengthSwallows(f, c, 0, bytes[1], bytes[2..]);
  }

  /** Zeros that bring the parser to a boundary. */
  function ToBoundary(p: Phase): nat
    requires Sound(p)
  {
    match p
    case Skipping(left) => left
    case Gathering(held) =>
      if held == [] then 0
      else if |held| == 1 then if held[0] < 2 then 0 else held[0] - 1
      else Size(held[1]) - |held|
  }

  lemma ZerosReachBoundary(f: Filter, s: State)
    requires Sound(s.phase) && (s.phase.Gathering? && |s.phase.held| == 1 ==> s.phase.held[0] >= 2)
    ensures var out := FeedAll(f, s, Zeros(ToBoundary(s.phase))).state;
      out.phase == Gathering([]) && (!CanMatch(f) ==> out.context.good == s.context.good)
  {
    hide FeedAll, Feed, AfterBody, Zeros;
    var zeros := Zeros(ToBoundary(s.phase));
    match s.phase
    case Skipping(left) =>
      FeedSkipped(f, s.context, left, zeros);
    case Gathering(held) =>
      if held == [] {
        assert zeros == [];
        NothingFed(f, s);
      } else if |held| == 1 {
        HeaderByZeros(f, s.context, held[0]);
        assert held == [held[0]];
      } else {
        FeedBody(f, s.context, held, zeros);
        BodyKeepsGood(f, s.context, held + zeros);
      }
  }

  lemma BodyKeepsGood(f: Filter, c: Context, d: seq<uint8>)
    requires |d| >= 7 && Fixed(d[1]) && |d| == Size(d[1])
    ensures var out := AfterBody(f, c, d).state;
      out.phase == Gathering([]) && (!CanMatch(f) ==> out.context.good == c.good)
  {
    if !CanMatch(f) {
      NoneMatches(f);
    }
    hide Matches;
  }

  lemma HeaderByZeros(f: Filter, c: Context, length: uint8)
    requires length >= 2
    ensures FeedAll(f, State(Gathering([length]), c), Zeros(length - 1)) == Outcome(Boundary(c), [])
  {
    hide FeedAll, Feed;
    var zeros := Zeros(length - 1);
    assert zeros == [0] + zeros[1..];
    FeedHeader(f, c, [length], [0]);
    FeedAllAppend(f, State(Gathering([length]), c), [0], zeros[1..]);
    if length > 2 {
      FeedSkipped(f, c, length - 2, zeros[1..]);
    } else {
      assert zeros[1..] == [];
      NothingFed(f, Boundary(c));
    }
  }

  lemma NothingFed(f: Filter, s: State)
    ensures FeedAll(f, s, []) == Outcome(s, [])
  {
  }

  // ----- away from a boundary, some stream tells

  lemma HeaderSwallowsProbe(f: Filter, c: Context, length: uint8)
    requires length < 2
    ensures FeedAll(f, State(Gathering([length]), c), Probe(f)).calls == []
  {
    hide FeedAll, Feed;
    var r := Probe(f);
    assert [length, r[0]] + r[1..] == [length] + r && [] + [length] == [length];
    ShortLengthSwallows(f, c, length, r[0], r[1..]);
    FeedPartHeader(f, c, [], [length]);
    FeedAllAppend(f, Boundary(c), [length], r);
  }

  lemma OffBoundaryShows(f: Filter, s: State, c: Context) returns (tail: seq<uint8>)
    requires Sound(s.phase) && Live(f, c) && s.phase != Gathering([])
    ensures |FeedAll(f, s, tail).calls| != |FeedAll(f, Boundary(c), tail).calls|
  {
    hide FeedAll, Feed, Probe, Zeros;
    tail := Probe(f);
    ProbeIsReported(f, c);
    if !Live(f, s.context) {
      DeadStaysSilent(f, s, tail);
    } else if s.phase.Skipping? && s.phase.left >= 16 {
      FeedSkipped(f, s.context, s.phase.left, tail);
    } else if s.phase.Gathering? && |s.phase.held| == 1 && s.phase.held[0] < 2 {
      assert s.phase.held == [s.phase.held[0]];
      HeaderSwallowsProbe(f, s.context, s.phase.held[0]);
    } else {
      var n := ToBoundary(s.phase);
      tail := Zeros(n) + Probe(f);
      ZerosHideProbe(f, c, n);
      ZerosReachBoundary(f, s);
      FeedAllAppend(f, s, Zeros(n), Probe(f));
      ProbeIsReported(f, FeedAll(f, s, Zeros(n)).state.context);
    }
  }

  lemma UnlikeShows(f: Filter, a: Context, b: Context) returns (tail: seq<uint8>)
    requires Live(f, b) && !Alike(f, a, b)
    ensures FeedAll(f, Boundary(a), tail).calls != FeedAll(f, Boundary(b), tail).calls
  {
    hide FeedAll, Feed, Probe;
    tail := Probe(f);
    ProbeIsReported(f, b);
    if !Live(f, a) {
      DeadStaysSilent(f, Boundary(a), tail);
    } else {
      ProbeIsReported(f, a);
      if a.conf == b.conf {
        tail := ANY_ENDPOINT;
        FeedDescriptor(f, a, tail);
        FeedDescriptor(f, b, tail);
      }
    }
  }

  /** Exactly at a boundary, with a context no stream tells apart, does all that
      follows read as from the boundary. */
  lemma LikeBoundaryExactlyWhen(f: Filter, s: State, c: Context)
    requires Sound(s.phase) && Live(f, c)
    ensures LikeBoundary(f, s, c) <==> s.phase == Gathering([]) && Alike(f, s.context, c)
  {
    hide FeedAll, Alike, Live, Sound;
    if s.phase != Gathering([]) {
      var tail := OffBoundaryShows(f, s, c);
      assert FeedAll(f, s, tail).calls != FeedAll(f, Boundary(c), tail).calls;
    } else if !Alike(f, s.context, c) {
      var tail := UnlikeShows(f, s.context, c);
      assert FeedAll(f, s, tail).calls != FeedAll(f, Boundary(c), tail).calls;
    } else {
      forall tail: seq<uint8>
        ensures FeedAll(f, s, tail).calls == FeedAll(f, Boundary(c), tail).calls
      {
        AlikeForever(f, s.phase, s.context, c, tail);
      }
    }
  }

  // ----- the lengths of fixed kinds

  /** A whole descriptor of a fixed kind: what the parser knows after it. */
  function After(f: Filter, c: Context, d: seq<uint8>): Context
    requires |d| >= 7 && Fixed(d[1]) && |d| == Size(d[1])
  {
    FeedAll(f, Boundary(c), d).state.context
  }

  /** The bytes a length byte adds do no harm to anything that follows exactly
      when, read as descriptors, they report nothing, are whole, and leave a
      context no stream tells apart. */
  lemma SurplusIsHarmlessExactlyWhen(f: Filter, c: Context, d: seq<uint8>, surplus: seq<uint8>)
    requires |d| >= 7 && Fixed(d[1]) && |d| == Size(d[1]) && Live(f, After(f, c, d))
    ensures var out := FeedAll(f, Boundary(After(f, c, d)), surplus);
      (forall tail: seq<uint8> :: FeedAll(f, Boundary(c), d + surplus + tail).calls == FeedAll(f, Boundary(c), d + tail).calls)
      <==> out.calls == [] && out.state.phase == Gathering([]) && Alike(f, out.state.context, After(f, c, d))
  {
    hide FeedAll, Feed, Alike, Live;
    var start := Boundary(After(f, c, d));
    var out := FeedAll(f, start, surplus);
    forall tail: seq<uint8>
      ensures FeedAll(f, Boundary(c), d + surplus + tail).calls == FeedAll(f, Boundary(c), d + tail).calls
         <==> out.calls + FeedAll(f, out.state, tail).calls == FeedAll(f, start, tail).calls
    {
      Resume(f, c, d, surplus, tail);
      SamePrefix(FeedAll(f, Boundary(c), d).calls, out.calls + FeedAll(f, out.state, tail).calls, FeedAll(f, start, tail).calls);
    }
    if out.calls != [] {
      NothingFed(f, start);
      NothingFed(f, out.state);
      assert out.calls + FeedAll(f, out.state, []).calls != FeedAll(f, start, []).calls;
    } else {
      StaysSound(f, start, surplus);
      LikeBoundaryExactlyWhen(f, out.state, start.context);
      assert forall tail: seq<uint8> :: out.calls + FeedAll(f, out.state, tail).calls == FeedAll(f, out.state, tail).calls;
    }
  }

  lemma SamePrefix<T>(prefix: seq<T>, a: seq<T>, b: seq<T>)
    ensures prefix + a == prefix + b <==> a == b
  {
    assert (prefix + a)[|prefix|..] == a && (prefix + b)[|prefix|..] == b;
  }

  lemma Resume(f: Filter, c: Context, d: seq<uint8>, surplus: seq<uint8>, tail: seq<uint8>)
    requires |d| >= 7 && Fixed(d[1]) && |d| == Size(d[1])
    ensures var whole, start := FeedAll(f, Boundary(c), d), Boundary(After(f, c, d));
      var out := FeedAll(f, start, surplus);
      && FeedAll(f, Boundary(c), d + surplus + tail).calls == whole.calls + (out.calls + FeedAll(f, out.state, tail).calls)
      && FeedAll(f, Boundary(c), d + tail).calls == whole.calls + FeedAll(f, start, tail).calls
  {
    hide FeedAll, Feed;
    FeedDescriptor(f, c, d);
    BodyEndsAtBoundary(f, AfterHeader(c, d[0], d[1]).context, d);
    FeedAllAppend(f, Boundary(c), d, surplus);
    FeedAllAppend(f, Boundary(c), d + surplus, tail);
    FeedAllAppend(f, Boundary(c), d, tail);
  }

  /** Where nothing can be reported any more, any surplus is harmless. */
  lemma DeadSurplusIsHarmless(f: Filter, c: Context, d: seq<uint8>, surplus: seq<uint8>, tail: seq<uint8>)
    requires |d| >= 7 && Fixed(d[1]) && |d| == Size(d[1]) && !Live(f, After(f, c, d))
    ensures FeedAll(f, Boundary(c), d + surplus + tail).calls == FeedAll(f, Boundary(c), d + tail).calls
  {
    hide FeedAll, Feed;
    var start := Boundary(After(f, c, d));
    Resume(f, c, d, surplus, tail);
    DeadStaysSilent(f, start, surplus);
    StaysSound(f, start, surplus);
    DeadStaysSilent(f, FeedAll(f, start, surplus).state, tail);
    DeadStaysSilent(f, start, tail);
  }

  /** Two surplus bytes that read as a header of a skipped kind: with length 2
      they change nothing, with less they hide all that follows. */
  lemma TwoSurplusBytes(f: Filter, c: Context, d: seq<uint8>, length: uint8, kind: uint8, tail: seq<uint8>)
    requires |d| >= 7 && Fixed(d[1]) && |d| == Size(d[1]) && length <= 2 && !Fixed(kind)
    requires length < 2 ==> |tail| <= 0xFFFE
    ensures FeedAll(f, Boundary(c), d + [length, kind] + tail).calls
         == FeedAll(f, Boundary(c), if length == 2 then d + tail else d).calls
  {
    hide FeedAll, Feed;
    var start := Boundary(After(f, c, d));
    Resume(f, c, d, [length, kind], tail);
    if length == 2 {
      FeedDescriptor(f, start.context, [length, kind]);
    } else {
      ShortLengthSwallows(f, start.context, length, kind, tail);
      FeedAllAppend(f, start, [length, kind], tail);
    }
  }

  /** A descriptor of a fixed kind that is too short always does harm: no
      context makes what follows read as it would after a whole one. */
  lemma ShortDescriptorHarms(f: Filter, c: Context, d: seq<uint8>, after: Context)
    requires |d| >= 2 && Fixed(d[1]) && |d| < Size(d[1]) && Live(f, after)
    ensures !LikeBoundary(f, FeedAll(f, Boundary(c), d).state, after)
  {
    hide FeedAll, Feed, Live;
    StaysSound(f, Boundary(c), d);
    var header, body := d[..2], d[2..];
    assert d == header + body && [] + header == header && header == [d[0], d[1]];
    FeedHeader(f, c, [], header);
    FeedAllAppend(f, Boundary(c), header, body);
    FeedPartBody(f, AfterHeader(c, d[0], d[1]).context, header, body);
    LikeBoundaryExactlyWhen(f, FeedAll(f, Boundary(c), d).state, after);
  }

  // ----- the lengths of skipped kinds

  /** A skipped descriptor hides the 65534 bytes after its header exactly when
      its length byte is below two. */
  lemma HidesExactlyWhenShort(f: Filter, c: Context, length: uint8, kind: uint8)
    requires !Fixed(kind) && Live(f, c)
    ensures (forall bytes: seq<uint8> | |bytes| <= 0xFFFE :: FeedAll(f, Boundary(c), [length, kind] + bytes).calls == [])
       <==> length < 2
  {
    hide FeedAll, Feed, Live, Probe, Zeros;
    var d := [length, kind];
    if length < 2 {
      forall bytes: seq<uint8> | |bytes| <= 0xFFFE
        ensures FeedAll(f, Boundary(c), d + bytes).calls == []
      {
        ShortLengthSwallows(f, c, length, kind, bytes);
      }
    } else {
      var whole := d + Zeros(length - 2);
      FeedDescriptor(f, c, whole);
      FeedAllAppend(f, Boundary(c), whole, Probe(f));
      ProbeIsReported(f, c);
      var bytes := Zeros(length - 2) + Probe(f);
      assert d + bytes == whole + Probe(f);
      assert FeedAll(f, Boundary(c), d + bytes).calls != [];
    }
  }
}
