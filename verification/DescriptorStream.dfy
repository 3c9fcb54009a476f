/** What a stream of USB configuration descriptors means to the parser, one byte
    at a time, as a walk over whole descriptors, and as a list of endpoints
    under matching interfaces. */
module DescriptorStream {
  import opened Chunks
  import opened Integers

  const CONFIGURATION: uint8 := 0x02
  const INTERFACE: uint8 := 0x04
  const ENDPOINT: uint8 := 0x05

  /** The template parameters of the parser and its UseOr flag. */
  datatype Filter = Filter(classId: uint8, subclassId: uint8, protocolId: uint8, mask: uint8, useOr: bool)

  predicate Matches(f: Filter, cls: uint8, subclass: uint8, protocol: uint8) {
    && (f.mask % 2 == 1 ==> cls == f.classId)
    && (f.mask / 2 % 2 == 1 ==> subclass == f.subclassId)
    && if f.useOr then f.mask / 4 % 2 == 1 && protocol != 0
       else f.mask / 4 % 2 == 1 ==> protocol == f.protocolId
  }

  /** One call of EndpointXtract; the last argument is the endpoint descriptor. */
  datatype Call = Call(conf: uint8, iface: uint8, alt: uint8, protocol: uint8, endpoint: seq<uint8>)

  datatype Context = Context(good: bool, conf: uint8, iface: uint8, alt: uint8, protocol: uint8)

  /** Bytes of the current descriptor held so far, or bytes still to skip. */
  datatype Phase = Gathering(held: seq<uint8>) | Skipping(left: nat)

  datatype State = State(phase: Phase, context: Context)

  datatype Outcome = Outcome(state: State, calls: seq<Call>)

  /** The types whose length the parser takes as given instead of reading it. */
  predicate Fixed(kind: uint8) {
    kind == CONFIGURATION || kind == INTERFACE || kind == ENDPOINT
  }

  function Size(kind: uint8): nat {
    if kind == ENDPOINT then 7 else 9
  }

  /** Any other descriptor is skipped by its length byte, in 16 bits. */
  function ToSkip(length: uint8): nat {
    (length - 2) % 0x1_0000
  }

  // ----- one byte at a time

  function AfterHeader(c: Context, length: uint8, kind: uint8): State {
    if Fixed(kind) then State(Gathering([length, kind]), if kind == INTERFACE then c.(good := false) else c)
    else State(if ToSkip(length) == 0 then Gathering([]) else Skipping(ToSkip(length)), c)
  }

  function AfterBody(f: Filter, c: Context, d: seq<uint8>): Outcome
    requires |d| >= 7 && Fixed(d[1]) && |d| == Size(d[1])
  {
    var next := State(Gathering([]), c);
    if d[1] == CONFIGURATION then Outcome(next.(context := c.(conf := d[5])), [])
    else if d[1] == INTERFACE then
      Outcome(if Matches(f, d[5], d[6], d[7]) then next.(context := Context(true, c.conf, d[2], d[3], d[7])) else next, [])
    else Outcome(next, if c.good then [Call(c.conf, c.iface, c.alt, c.protocol, d)] else [])
  }

  function Feed(f: Filter, s: State, b: uint8): Outcome {
    match s.phase
    case Skipping(left) =>
      Outcome(s.(phase := if left <= 1 then Gathering([]) else Skipping(left - 1)), [])
    case Gathering(held) =>
      var d := held + [b];
      if |d| < 2 then Outcome(s.(phase := Gathering(d)), [])
      else if |d| == 2 then Outcome(AfterHeader(s.context, d[0], d[1]), [])
      else if Fixed(d[1]) && |d| == Size(d[1]) then AfterBody(f, s.context, d)
      else Outcome(s.(phase := Gathering(d)), [])
  }

  function FeedAll(f: Filter, s: State, bytes: seq<uint8>): Outcome {
    if bytes == [] then Outcome(s, [])
    else
      var before := FeedAll(f, s, bytes[..|bytes| - 1]);
      var last := Feed(f, before.state, bytes[|bytes| - 1]);
      Outcome(last.state, before.calls + last.calls)
  }

  /** Feeding one chunk and then another is feeding them as one. */
  lemma {:induction false} FeedAllAppend(f: Filter, s: State, a: seq<uint8>, b: seq<uint8>)
    ensures var first := FeedAll(f, s, a);
      var second := FeedAll(f, first.state, b);
      FeedAll(f, s, a + b) == Outcome(second.state, first.calls + second.calls)
  {
    hide Feed;
    if b == [] {
      assert a + b == a;
    } else {
      var n := |b| - 1;
      FeedAllAppend(f, s, a, b[..n]);
      assert (a + b)[..|a + b| - 1] == a + b[..n];
    }
  }

  function FeedChunks(f: Filter, s: State, chunks: seq<seq<uint8>>): Outcome
    decreases |chunks|
  {
    if chunks == [] then Outcome(s, [])
    else
      var first := FeedAll(f, s, chunks[0]);
      var rest := FeedChunks(f, first.state, chunks[1..]);
      Outcome(rest.state, first.calls + rest.calls)
  }

  /** However the stream is cut into chunks, the state and the calls are those
      of the whole. */
  lemma {:induction false} ChunkIndependence(f: Filter, s: State, chunks: seq<seq<uint8>>)
    ensures FeedChunks(f, s, chunks) == FeedAll(f, s, Joined(chunks))
    decreases |chunks|
  {
    if chunks != [] {
      ChunkIndependence(f, FeedAll(f, s, chunks[0]).state, chunks[1..]);
      FeedAllAppend(f, s, chunks[0], Joined(chunks[1..]));
    }
  }

  // ----- whole pieces at a time

  lemma {:induction false} FeedPartHeader(f: Filter, c: Context, held: seq<uint8>, bytes: seq<uint8>)
    requires |held| + |bytes| < 2
    ensures FeedAll(f, State(Gathering(held), c), bytes) == Outcome(State(Gathering(held + bytes), c), [])
  {
    if bytes == [] {
      assert held + bytes == held;
    } else {
      assert bytes == [bytes[0]] && bytes[..0] == [];
      assert held == [];
    }
  }

  lemma FeedHeader(f: Filter, c: Context, held: seq<uint8>, bytes: seq<uint8>)
    requires |held| < 2 && |held| + |bytes| == 2
    ensures var d := held + bytes;
      FeedAll(f, State(Gathering(held), c), bytes) == Outcome(AfterHeader(c, d[0], d[1]), [])
  {
    hide AfterHeader;
    var n := |bytes| - 1;
    FeedPartHeader(f, c, held, bytes[..n]);
    assert held + bytes[..n] + [bytes[n]] == held + bytes;
  }

  lemma {:induction false} FeedPartBody(f: Filter, c: Context, held: seq<uint8>, bytes: seq<uint8>)
    requires |held| >= 2 && Fixed(held[1]) && |held| + |bytes| < Size(held[1])
    ensures FeedAll(f, State(Gathering(held), c), bytes) == Outcome(State(Gathering(held + bytes), c), [])
  {
    if bytes == [] {
      assert held + bytes == held;
    } else {
      var n := |bytes| - 1;
      FeedPartBody(f, c, held, bytes[..n]);
      assert held + bytes[..n] + [bytes[n]] == held + bytes;
    }
  }

  lemma FeedBody(f: Filter, c: Context, held: seq<uint8>, bytes: seq<uint8>)
    requires |held| >= 2 && Fixed(held[1]) && |held| < Size(held[1]) && |held| + |bytes| == Size(held[1])
    ensures FeedAll(f, State(Gathering(held), c), bytes) == AfterBody(f, c, held + bytes)
  {
    hide AfterBody;
    var n := |bytes| - 1;
    FeedPartBody(f, c, held, bytes[..n]);
    assert held + bytes[..n] + [bytes[n]] == held + bytes;
  }

  lemma {:induction false} FeedSkipped(f: Filter, c: Context, left: nat, bytes: seq<uint8>)
    requires |bytes| <= left && left > 0
    ensures FeedAll(f, State(Skipping(left), c), bytes)
         == Outcome(State(if |bytes| == left then Gathering([]) else Skipping(left - |bytes|), c), [])
  {
    if bytes != [] {
      FeedSkipped(f, c, left, bytes[..|bytes| - 1]);
    }
  }

  // ----- a walk over the bytes, descriptor by descriptor

  /** Bytes the parser takes for the descriptor that starts with this header. */
  function Taken(length: uint8, kind: uint8): nat {
    if Fixed(kind) then Size(kind) else 2 + ToSkip(length)
  }

  function Walk(f: Filter, c: Context, bytes: seq<uint8>): seq<Call>
    decreases |bytes|
  {
    if |bytes| < 2 || |bytes| < Taken(bytes[0], bytes[1]) then []
    else
      var n := Taken(bytes[0], bytes[1]);
      if Fixed(bytes[1]) then
        var done := AfterBody(f, AfterHeader(c, bytes[0], bytes[1]).context, bytes[..n]);
        done.calls + Walk(f, done.state.context, bytes[n..])
      else Walk(f, c, bytes[n..])
  }

  /** A whole descriptor from its first byte to its last. */
  lemma FeedDescriptor(f: Filter, c: Context, d: seq<uint8>)
    requires |d| >= 2 && |d| == Taken(d[0], d[1])
    ensures FeedAll(f, State(Gathering([]), c), d)
         == if Fixed(d[1]) then AfterBody(f, AfterHeader(c, d[0], d[1]).context, d) else Outcome(State(Gathering([]), c), [])
  {
    hide AfterBody;
    var header, body := d[..2], d[2..];
    assert d == header + body && [] + header == header && header == [d[0], d[1]];
    FeedHeader(f, c, [], header);
    FeedAllAppend(f, State(Gathering([]), c), header, body);
    var after := AfterHeader(c, d[0], d[1]);
    if Fixed(d[1]) {
      FeedBody(f, after.context, header, body);
    } else if ToSkip(d[0]) > 0 {
      FeedSkipped(f, c, ToSkip(d[0]), body);
    }
  }

  /** An unfinished descriptor at the end of the stream is reported to no one. */
  lemma FeedTail(f: Filter, c: Context, bytes: seq<uint8>)
    requires |bytes| < 2 || |bytes| < Taken(bytes[0], bytes[1])
    ensures FeedAll(f, State(Gathering([]), c), bytes).calls == []
  {
    if |bytes| < 2 {
      FeedPartHeader(f, c, [], bytes);
    } else {
      var header, body := bytes[..2], bytes[2..];
      assert bytes == header + body && [] + header == header && header == [bytes[0], bytes[1]];
      FeedHeader(f, c, [], header);
      FeedAllAppend(f, State(Gathering([]), c), header, body);
      var after := AfterHeader(c, bytes[0], bytes[1]);
      if Fixed(bytes[1]) {
        FeedPartBody(f, after.context, header, body);
      } else {
        FeedSkipped(f, c, ToSkip(bytes[0]), body);
      }
    }
  }

  lemma {:induction false} StreamIsWalk(f: Filter, c: Context, bytes: seq<uint8>)
    ensures FeedAll(f, State(Gathering([]), c), bytes).calls == Walk(f, c, bytes)
    decreases |bytes|
  {
    hide AfterBody, AfterHeader, Feed, FeedAll;
    if |bytes| < 2 || |bytes| < Taken(bytes[0], bytes[1]) {
      FeedTail(f, c, bytes);
    } else {
      var n := Taken(bytes[0], bytes[1]);
      var d, rest := bytes[..n], bytes[n..];
      assert bytes == d + rest;
      FeedDescriptor(f, c, d);
      FeedAllAppend(f, State(Gathering([]), c), d, rest);
      var c' := if Fixed(d[1]) then AfterBody(f, AfterHeader(c, d[0], d[1]).context, d).state.context else c;
      if Fixed(d[1]) {
        BodyEndsAtBoundary(f, AfterHeader(c, d[0], d[1]).context, d);
      }
      StreamIsWalk(f, c', rest);
    }
  }

  lemma BodyEndsAtBoundary(f: Filter, c: Context, d: seq<uint8>)
    requires |d| >= 7 && Fixed(d[1]) && |d| == Size(d[1])
    ensures AfterBody(f, c, d).state.phase == Gathering([])
  {
  }

  /** A length byte below 2 on a skipped descriptor swallows the next 65534 or
      65535 bytes, whatever they are. */
  lemma ShortLengthSwallows(f: Filter, c: Context, length: uint8, kind: uint8, bytes: seq<uint8>)
    requires length < 2 && !Fixed(kind) && |bytes| <= 0xFFFE
    ensures FeedAll(f, State(Gathering([]), c), [length, kind] + bytes).calls == []
  {
    var d := [length, kind];
    assert [] + d == d;
    FeedHeader(f, c, [], d);
    FeedAllAppend(f, State(Gathering([]), c), d, bytes);
    FeedSkipped(f, c, ToSkip(length), bytes);
  }
}
