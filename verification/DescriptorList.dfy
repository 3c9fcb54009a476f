/** The parser's callbacks for a list of descriptors of standard lengths: each
    endpoint under the last interface before it, if that interface matches. */
module DescriptorList {
  import opened Integers
  import opened DescriptorStream

  /** A descriptor without its length byte; `body` follows the two header bytes. */
  datatype Descriptor = Descriptor(kind: uint8, body: seq<uint8>)

  /** Sections 9.6.3, 9.6.5 and 9.6.6 of the USB 2.0 specification fix the
      lengths of three kinds; the length byte bounds the others. */
  predicate Standard(d: Descriptor) {
    if Fixed(d.kind) then |d.body| == Size(d.kind) - 2 else |d.body| <= 253
  }

  type Descriptors = l: seq<Descriptor> | forall i | 0 <= i < |l| :: Standard(l[i])

  function Bytes(d: Descriptor): seq<uint8>
    requires Standard(d)
  {
    [|d.body| + 2, d.kind] + d.body
  }

  function Serial(list: Descriptors): seq<uint8> {
    if list == [] then [] else Serial(list[..|list| - 1]) + Bytes(list[|list| - 1])
  }

  // ----- the reference

  datatype Found = None | Some(descriptor: Descriptor)

  /** The last descriptor of this kind in the list. */
  function Last(list: Descriptors, kind: uint8): (r: Found)
    ensures r.Some? ==> Standard(r.descriptor) && r.descriptor.kind == kind
  {
    if list == [] then None
    else if list[|list| - 1].kind == kind then Some(list[|list| - 1])
    else Last(list[..|list| - 1], kind)
  }

  predicate GoodInterface(f: Filter, d: Descriptor)
    requires Standard(d) && d.kind == INTERFACE
  {
    Matches(f, d.body[3], d.body[4], d.body[5])
  }

  /** The interface that governs what comes after the list, if it matches. */
  predicate Open(f: Filter, list: Descriptors) {
    var i := Last(list, INTERFACE);
    i.Some? && GoodInterface(f, i.descriptor)
  }

  /** Endpoints under matching interfaces, each with the values of its
      configuration and its interface. */
  function Endpoints(f: Filter, list: Descriptors): seq<Call> {
    if list == [] then []
    else
      var before, d := list[..|list| - 1], list[|list| - 1];
      Endpoints(f, before) +
      if d.kind == ENDPOINT && Open(f, before) then
        var i, c := Last(before, INTERFACE).descriptor.body, Last(before, CONFIGURATION);
        [Call(if c.Some? then c.descriptor.body[3] else 0, i[0], i[1], i[5], Bytes(d))]
      else []
  }

  /** No endpoint before the first interface, and no reported endpoint before
      the first configuration. */
  ghost predicate Settled(f: Filter, list: Descriptors) {
    forall n | 0 <= n < |list| && list[n].kind == ENDPOINT ::
      && Last(list[..n], INTERFACE).Some?
      && (Open(f, list[..n]) ==> Last(list[..n], CONFIGURATION).Some?)
  }

  // ----- the parser on a list

  function Parsed(f: Filter, c: Context, list: Descriptors): Outcome {
    FeedAll(f, State(Gathering([]), c), Serial(list))
  }

  function Next(f: Filter, c: Context, d: Descriptor): Context
    requires Standard(d)
  {
    if d.kind == CONFIGURATION then c.(conf := d.body[3])
    else if d.kind == INTERFACE then
      if GoodInterface(f, d) then Context(true, c.conf, d.body[0], d.body[1], d.body[5]) else c.(good := false)
    else c
  }

  function Reported(c: Context, d: Descriptor): seq<Call>
    requires Standard(d)
  {
    if d.kind == ENDPOINT && c.good then [Call(c.conf, c.iface, c.alt, c.protocol, Bytes(d))] else []
  }

  lemma FeedOne(f: Filter, c: Context, d: Descriptor)
    requires Standard(d)
    ensures FeedAll(f, State(Gathering([]), c), Bytes(d)) == Outcome(State(Gathering([]), Next(f, c, d)), Reported(c, d))
  {
    hide Feed, FeedAll, Matches;
    FeedDescriptor(f, c, Bytes(d));
  }

  lemma ParsedStep(f: Filter, c: Context, list: Descriptors)
    requires list != [] && Parsed(f, c, list[..|list| - 1]).state.phase == Gathering([])
    ensures var before := Parsed(f, c, list[..|list| - 1]);
      var d := list[|list| - 1];
      Parsed(f, c, list) == Outcome(State(Gathering([]), Next(f, before.state.context, d)),
                                    before.calls + Reported(before.state.context, d))
  {
    hide Feed, FeedAll, Bytes, Next, Reported;
    var n := |list| - 1;
    FeedOne(f, Parsed(f, c, list[..n]).state.context, list[n]);
    FeedAllAppend(f, State(Gathering([]), c), Serial(list[..n]), Bytes(list[n]));
  }

  /** What the parser remembers after a list: the last configuration's value,
      and the last interface's if it matched. What it was created with shows
      through where the list has none. */
  ghost predicate Remembers(f: Filter, c: Context, list: Descriptors, now: Context) {
    var i, conf := Last(list, INTERFACE), Last(list, CONFIGURATION);
    && now.conf == (if conf.Some? then conf.descriptor.body[3] else c.conf)
    && now.good == (if i.Some? then GoodInterface(f, i.descriptor) else c.good)
    && (i.Some? && now.good ==>
          var b := i.descriptor.body; now.iface == b[0] && now.alt == b[1] && now.protocol == b[5])
  }

  lemma {:induction false} ParsedRemembers(f: Filter, c: Context, list: Descriptors)
    ensures Parsed(f, c, list).state.phase == Gathering([])
    ensures Remembers(f, c, list, Parsed(f, c, list).state.context)
    decreases |list|
  {
    hide Parsed, Matches;
    if list == [] {
      NothingParsed(f, c, list);
    } else {
      ParsedRemembers(f, c, list[..|list| - 1]);
      ParsedStep(f, c, list);
    }
  }

  lemma NothingParsed(f: Filter, c: Context, list: Descriptors)
    requires list == []
    ensures Parsed(f, c, list) == Outcome(State(Gathering([]), c), [])
  {
  }

  /** The callbacks of a settled list are its endpoints under matching
      interfaces, whatever the parser's fields held when it was created. */
  lemma {:induction false} CallbacksAreEndpoints(f: Filter, c: Context, list: Descriptors)
    requires Settled(f, list)
    ensures Parsed(f, c, list).calls == Endpoints(f, list)
    decreases |list|
  {
    hide Parsed, Matches, Bytes;
    if list == [] {
      NothingParsed(f, c, list);
    } else {
      var n := |list| - 1;
      assert forall k | 0 <= k < n :: list[..n][..k] == list[..k];
      CallbacksAreEndpoints(f, c, list[..n]);
      ParsedRemembers(f, c, list[..n]);
      ParsedStep(f, c, list);
    }
  }

  // ----- and only then

  /** A parser that starts inside a good interface reports at least as much. */
  lemma {:induction false} GoodStartReportsMore(f: Filter, list: Descriptors, c: Context)
    requires c.good
    ensures |Parsed(f, c, list).calls| >= |Parsed(f, c.(good := false), list).calls|
    ensures (exists n | 0 <= n < |list| && list[n].kind == ENDPOINT :: Last(list[..n], INTERFACE).None?) ==>
              |Parsed(f, c, list).calls| > |Parsed(f, c.(good := false), list).calls|
    decreases |list|
  {
    hide Parsed, Matches, Bytes;
    if list == [] {
      NothingParsed(f, c, list);
      NothingParsed(f, c.(good := false), list);
    } else {
      var n := |list| - 1;
      assert forall k | 0 <= k < n :: list[..n][..k] == list[..k];
      GoodStartReportsMore(f, list[..n], c);
      ParsedRemembers(f, c, list[..n]);
      ParsedRemembers(f, c.(good := false), list[..n]);
      ParsedStep(f, c, list);
      ParsedStep(f, c.(good := false), list);
    }
  }

  /** Where every endpoint has an interface before it, a reported endpoint with
      no configuration before it shows the initial configuration value. */
  lemma {:induction false} InitialConfShows(f: Filter, list: Descriptors, c: Context, conf: uint8)
    requires forall n | 0 <= n < |list| && list[n].kind == ENDPOINT :: Last(list[..n], INTERFACE).Some?
    requires conf != c.conf
    ensures |Parsed(f, c, list).calls| == |Parsed(f, c.(conf := conf), list).calls|
    ensures (exists n | 0 <= n < |list| && list[n].kind == ENDPOINT :: Open(f, list[..n]) && Last(list[..n], CONFIGURATION).None?) ==>
              Parsed(f, c, list).calls != Parsed(f, c.(conf := conf), list).calls
    decreases |list|
  {
    hide Parsed, Matches, Bytes;
    if list == [] {
      NothingParsed(f, c, list);
      NothingParsed(f, c.(conf := conf), list);
    } else {
      var n := |list| - 1;
      assert forall k | 0 <= k < n :: list[..n][..k] == list[..k];
      InitialConfShows(f, list[..n], c, conf);
      ParsedRemembers(f, c, list[..n]);
      ParsedRemembers(f, c.(conf := conf), list[..n]);
      ParsedStep(f, c, list);
      ParsedStep(f, c.(conf := conf), list);
      var a, b := Parsed(f, c, list[..n]).calls, Parsed(f, c.(conf := conf), list[..n]).calls;
      assert Parsed(f, c, list).calls[..|a|] == a && Parsed(f, c.(conf := conf), list).calls[..|b|] == b;
      assert Parsed(f, c, list).calls[|a|..] == Reported(Parsed(f, c, list[..n]).state.context, list[n]);
      assert Parsed(f, c.(conf := conf), list).calls[|b|..] == Reported(Parsed(f, c.(conf := conf), list[..n]).state.context, list[n]);
    }
  }

  /** The callbacks are the reference list, whatever the fields held at the
      start, exactly when the list is settled. */
  lemma CallbacksAreEndpointsExactlyWhen(f: Filter, list: Descriptors)
    ensures (forall c: Context :: Parsed(f, c, list).calls == Endpoints(f, list)) <==> Settled(f, list)
  {
    hide Parsed, Endpoints, Open, Last;
    if Settled(f, list) {
      forall c: Context
        ensures Parsed(f, c, list).calls == Endpoints(f, list)
      {
        CallbacksAreEndpoints(f, c, list);
      }
    } else {
      var c := Context(true, 0, 0, 0, 0);
      GoodStartReportsMore(f, list, c);
      if forall n | 0 <= n < |list| && list[n].kind == ENDPOINT :: Last(list[..n], INTERFACE).Some? {
        InitialConfShows(f, list, c, 1);
        assert Parsed(f, c, list).calls != Parsed(f, c.(conf := 1), list).calls;
      } else {
        assert |Parsed(f, c, list).calls| > |Parsed(f, c.(good := false), list).calls|;
      }
    }
  }

  // ----- which interfaces match

  /** The mask that compares these fields. */
  function MaskOf(cls: bool, subclass: bool, protocol: bool): uint8 {
    (if cls then 1 else 0) + (if subclass then 2 else 0) + if protocol then 4 else 0
  }

  /** An endpoint right after an interface is reported exactly when each field
      the mask compares is that of the filter; after SetOR any protocol but 0
      will do, if the mask compares it. Other fields do not matter. */
  lemma ReportedExactlyWhen(f: Filter, c: Context, i: Descriptor, d: Descriptor, cls: bool, subclass: bool, protocol: bool)
    requires Standard(i) && Standard(d) && i.kind == INTERFACE && d.kind == ENDPOINT
    requires f.mask % 8 == MaskOf(cls, subclass, protocol)
    ensures Parsed(f, c, [i, d]).calls
         == if && (cls ==> i.body[3] == f.classId)
               && (subclass ==> i.body[4] == f.subclassId)
               && (if f.useOr then protocol && i.body[5] != 0 else protocol ==> i.body[5] == f.protocolId)
            then [Call(c.conf, i.body[0], i.body[1], i.body[5], Bytes(d))] else []
  {
    hide Parsed, Bytes, Matches;
    var list := [i, d];
    assert list[..1] == [i] && [i][..0] == [];
    NothingParsed(f, c, []);
    ParsedStep(f, c, [i]);
    ParsedStep(f, c, list);
    MaskBits(f, i.body[3], i.body[4], i.body[5], cls, subclass, protocol);
  }

  lemma MaskBits(f: Filter, cls: uint8, subclass: uint8, protocol: uint8, byClass: bool, bySubclass: bool, byProtocol: bool)
    requires f.mask % 8 == MaskOf(byClass, bySubclass, byProtocol)
    ensures Matches(f, cls, subclass, protocol) <==>
      && (byClass ==> cls == f.classId)
      && (bySubclass ==> subclass == f.subclassId)
      && if f.useOr then byProtocol && protocol != 0 else byProtocol ==> protocol == f.protocolId
  {
    assert f.mask % 2 == f.mask % 8 % 2 && f.mask / 2 % 2 == f.mask % 8 / 2 % 2 && f.mask / 4 % 2 == f.mask % 8 / 4 by {
      var high, low := f.mask / 8, f.mask % 8;
      assert f.mask == 8 * high + low;
    }
  }
}
