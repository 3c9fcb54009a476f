/** The resumable parser itself: a fall-through switch over five states that
    stops wherever a chunk runs out. */
module ConfigDescParser {
  import opened Integers
  import opened DescriptorStream
  import opened ParseTools

  const HID: uint8 := 0x21

  class ConfigDescParser {
    const classId: uint8
    const subclassId: uint8
    const protocolId: uint8
    const mask: uint8
    const varBuffer: array<uint8>
    const valParser: MultiByteValueParser
    const theSkipper: ByteSkipper
    var bufferAt: nat
    var bufferSize: uint8
    var stateParseDescr: nat
    var dscrLen: uint8
    var dscrType: uint8
    var isGoodInterface: bool
    var confValue: uint8
    var protoValue: uint8
    var ifaceNumber: uint8
    var ifaceAltSet: uint8
    var useOr: bool
    /** What theXtractor has been told so far. */
    var calls: seq<Call>

    /** Between calls the parser rests in state 0, 1 or 4. */
    ghost predicate Valid()
      reads this, varBuffer, valParser, theSkipper
    {
      && varBuffer.Length == 16
      && match stateParseDescr
         case 0 => bufferAt == 0 && theSkipper.nStage == 0
         case 1 => Reading(0, 2) && bufferAt == 0 && theSkipper.nStage == 0
         case 4 => BodyReady()
         case _ => false
    }

    ghost predicate Reading(at: nat, size: nat)
      reads this, valParser
    {
      valParser.offset == at && valParser.valueSize == size && 0 < valParser.countDown <= size
    }

    ghost predicate BodyReady()
      reads this, varBuffer, valParser, theSkipper
    {
      && varBuffer.Length == 16 && varBuffer[0] == dscrLen && varBuffer[1] == dscrType
      && (if Fixed(dscrType) then Reading(2, Size(dscrType) - 2) && theSkipper.nStage == 0
          else theSkipper.nStage == 1 && theSkipper.countDown > 0)
    }

    ghost function Context(): Context
      reads this
    {
      DescriptorStream.Context(isGoodInterface, confValue, ifaceNumber, ifaceAltSet, protoValue)
    }

    ghost function Filter(): Filter
      reads this
    {
      DescriptorStream.Filter(classId, subclassId, protocolId, mask, useOr)
    }

    /** The part of the current descriptor the buffer holds. */
    ghost function Held(): seq<uint8>
      requires Valid()
      reads this, varBuffer, valParser, theSkipper
    {
      if stateParseDescr == 0 || (stateParseDescr == 4 && !Fixed(dscrType)) then []
      else varBuffer[..valParser.offset + valParser.valueSize - valParser.countDown]
    }

    ghost function Value(): State
      requires Valid()
      reads this, varBuffer, valParser, theSkipper
    {
      State(if stateParseDescr == 4 && !Fixed(dscrType) then Skipping(theSkipper.countDown) else Gathering(Held()), Context())
    }

    /** The fields the constructor leaves alone start with any values. */
    constructor (classId: uint8, subclassId: uint8, protocolId: uint8, mask: uint8,
        garbage: Context, size: uint8, buffer: array<uint8>)
      requires buffer.Length == 16
      ensures Valid() && Value() == State(Gathering([]), garbage) && calls == []
      ensures Filter() == DescriptorStream.Filter(classId, subclassId, protocolId, mask, false)
      ensures varBuffer == buffer && fresh(valParser) && fresh(theSkipper)
    {
      this.classId, this.subclassId, this.protocolId, this.mask := classId, subclassId, protocolId, mask;
      isGoodInterface, confValue, protoValue := garbage.good, garbage.conf, garbage.protocol;
      ifaceNumber, ifaceAltSet := garbage.iface, garbage.alt;
      stateParseDescr, dscrLen, dscrType, useOr := 0, 0, 0, false;
      varBuffer := buffer;
      bufferAt, bufferSize := 0, size;
      valParser := new MultiByteValueParser(0, size);
      theSkipper := new ByteSkipper();
      calls := [];
    }

    method SetOR()
      requires Valid()
      modifies this`useOr
      ensures Valid() && Value() == old(Value()) && Filter() == old(Filter()).(useOr := true)
    {
      useOr := true;
    }

    /** Cases 0 and 1: the two header bytes. */
    method ReadHeader(data: seq<uint8>, p: nat) returns (done: bool, p': nat)
      requires Valid() && stateParseDescr <= 1 && p < |data|
      modifies this`stateParseDescr, this`bufferSize, this`dscrLen, this`dscrType, varBuffer, valParser
      ensures p < p' <= |data|
      ensures varBuffer.Length == 16 && theSkipper.nStage == 0 && bufferAt == 0
      ensures !done ==> p' == |data| && Valid() && stateParseDescr == 1 && Held() == old(Held()) + data[p..p'] && |Held()| < 2
      ensures done ==> stateParseDescr == 2 && old(Held()) + data[p..p'] == [dscrLen, dscrType] == varBuffer[..2] && |old(Held())| < 2
    {
      ghost var held := Held();
      if stateParseDescr == 0 {
        bufferSize := 2;
        valParser.Initialize(bufferAt, bufferSize);
        stateParseDescr := 1;
      }
      assert varBuffer[..2 - valParser.countDown] == held;
      done, p' := valParser.Parse(varBuffer, data, p);
      if !done {
        return;
      }
      dscrLen := varBuffer[0];
      dscrType := varBuffer[1];
      stateParseDescr := 2;
      assert varBuffer[..2] == held + data[p..p'];
    }

    /** Cases 2 and 3: aim the reader behind the header, at the rest of the
        descriptor. */
    method AimAtBody()
      requires varBuffer.Length == 16 && stateParseDescr == 2
      modifies this`bufferAt, this`bufferSize, this`stateParseDescr, this`isGoodInterface, valParser
      ensures stateParseDescr == 4
      ensures isGoodInterface == (old(isGoodInterface) && dscrType != INTERFACE)
      ensures Fixed(dscrType) ==> Reading(2, Size(dscrType) - 2) && valParser.countDown == valParser.valueSize
    {
      bufferAt := 2;
      stateParseDescr := 3;
      if dscrType == INTERFACE {
        isGoodInterface := false;
      }
      if dscrType == INTERFACE || dscrType == CONFIGURATION {
        bufferSize := 9 - 2;
      } else if dscrType == ENDPOINT {
        bufferSize := 7 - 2;
      } else if dscrType == HID {
        bufferSize := (dscrLen - 2) % 256;
      }
      valParser.Initialize(bufferAt, bufferSize);
      stateParseDescr := 4;
    }

    /** What a whole descriptor in the buffer does to the fields. */
    method TakeBody()
      requires varBuffer.Length == 16 && Fixed(dscrType) && varBuffer[1] == dscrType
      modifies this`isGoodInterface, this`confValue, this`protoValue, this`ifaceNumber, this`ifaceAltSet, this`calls
      ensures var r := AfterBody(Filter(), old(Context()), varBuffer[..Size(dscrType)]);
        Context() == r.state.context && calls == old(calls) + r.calls
    {
      if dscrType == CONFIGURATION {
        confValue := varBuffer[5];
      } else if dscrType == INTERFACE {
        if mask % 2 == 1 && varBuffer[5] != classId {
          return;
        }
        if mask / 2 % 2 == 1 && varBuffer[6] != subclassId {
          return;
        }
        if useOr {
          if !(mask / 4 % 2 == 1 && varBuffer[7] != 0) {
            return;
          }
        } else if mask / 4 % 2 == 1 && varBuffer[7] != protocolId {
          return;
        }
        isGoodInterface := true;
        ifaceNumber := varBuffer[2];
        ifaceAltSet := varBuffer[3];
        protoValue := varBuffer[7];
      } else if isGoodInterface {
        calls := calls + [Call(confValue, ifaceNumber, ifaceAltSet, protoValue, varBuffer[..7])];
      }
    }

    /** Case 4 for the kinds that are read. */
    method ReadBody(data: seq<uint8>, p: nat) returns (done: bool, p': nat)
      requires varBuffer.Length == 16 && stateParseDescr == 4 && p <= |data|
      requires varBuffer[0] == dscrLen && varBuffer[1] == dscrType && theSkipper.nStage == 0
      requires Fixed(dscrType) && Reading(2, Size(dscrType) - 2)
      modifies this`stateParseDescr, this`bufferAt, this`isGoodInterface, this`confValue, this`protoValue,
        this`ifaceNumber, this`ifaceAltSet, this`calls, varBuffer, valParser
      ensures Valid() && p <= p' <= |data| && (!done ==> p' == |data|)
      ensures p < |data| ==> p < p'
      ensures var held := old(varBuffer[..2 + valParser.valueSize - valParser.countDown]);
        var r := FeedAll(Filter(), State(Gathering(held), old(Context())), data[p..p']);
        Value() == r.state && calls == old(calls) + r.calls
    {
      hide AfterBody, FeedAll, Feed;
      ghost var held := varBuffer[..2 + valParser.valueSize - valParser.countDown];
      ghost var f, c := Filter(), Context();
      assert held[1] == varBuffer[1] == dscrType;
      done, p' := valParser.Parse(varBuffer, data, p);
      if !done {
        assert Held() == held + data[p..p'];
        assert varBuffer[0] == held[0] && varBuffer[1] == held[1];
        FeedPartBody(f, c, held, data[p..p']);
        return;
      }
      assert varBuffer[..Size(dscrType)] == held + data[p..p'];
      assert varBuffer[1] == held[1];
      FeedBody(f, c, held, data[p..p']);
      BodyEndsAtBoundary(f, c, varBuffer[..Size(dscrType)]);
      TakeBody();
      bufferAt := 0;
      stateParseDescr := 0;
    }

    /** Case 4 for the kinds that are skipped. */
    method SkipBody(data: seq<uint8>, p: nat) returns (done: bool, p': nat)
      requires varBuffer.Length == 16 && stateParseDescr == 4 && p <= |data|
      requires varBuffer[0] == dscrLen && varBuffer[1] == dscrType && theSkipper.nStage <= 1 && !Fixed(dscrType)
      modifies this`stateParseDescr, this`bufferAt, theSkipper
      ensures Valid() && p <= p' <= |data| && (!done ==> p' == |data|)
      ensures var left := old(theSkipper.Wanted(ToSkip(dscrLen)));
        && |data[p..p']| <= left && done == (|data[p..p']| == left) && (p < |data| && left > 0 ==> p < p')
        && Value() == State(if done then Gathering([]) else Skipping(left - |data[p..p']|), old(Context()))
    {
      done, p' := theSkipper.Skip(data, p, (dscrLen - 2) % 0x1_0000);
      if !done {
        return;
      }
      bufferAt := 0;
      stateParseDescr := 0;
    }

    /** Case 4, coming straight from the header. */
    method BodyAfterHeader(data: seq<uint8>, p: nat) returns (done: bool, p': nat)
      requires varBuffer.Length == 16 && stateParseDescr == 2 && p <= |data| && bufferAt == 0
      requires varBuffer[0] == dscrLen && varBuffer[1] == dscrType && theSkipper.nStage == 0
      modifies this`stateParseDescr, this`bufferAt, this`bufferSize, this`isGoodInterface, this`confValue, this`protoValue,
        this`ifaceNumber, this`ifaceAltSet, this`calls, varBuffer, valParser, theSkipper
      ensures Valid() && p <= p' <= |data| && (!done ==> p' == |data|)
      ensures var r := FeedAll(Filter(), AfterHeader(old(Context()), old(dscrLen), old(dscrType)), data[p..p']);
        Value() == r.state && calls == old(calls) + r.calls
    {
      hide FeedAll;
      ghost var c := Context();
      AimAtBody();
      if Fixed(dscrType) {
        assert varBuffer[..2] == [dscrLen, dscrType];
        done, p' := ReadBody(data, p);
      } else {
        done, p' := SkipBody(data, p);
        if ToSkip(dscrLen) > 0 {
          FeedSkipped(Filter(), c, ToSkip(dscrLen), data[p..p']);
        } else {
          FeedNothing(Filter(), State(Gathering([]), c), data[p..p']);
        }
      }
    }

    method ParseDescriptor(data: seq<uint8>, p: nat) returns (done: bool, p': nat)
      requires Valid() && p < |data|
      modifies this, varBuffer, valParser, theSkipper
      ensures Valid() && Filter() == old(Filter()) && p < p' <= |data| && (!done ==> p' == |data|)
      ensures var r := FeedAll(Filter(), old(Value()), data[p..p']);
        Value() == r.state && calls == old(calls) + r.calls
    {
      hide AfterHeader, AfterBody, Feed, FeedAll;
      ghost var f, s := Filter(), Value();
      p' := p;
      if stateParseDescr <= 1 {
        ghost var held, c := Held(), Context();
        done, p' := ReadHeader(data, p);
        if !done {
          FeedPartHeader(f, c, held, data[p..p']);
          return;
        }
        FeedHeader(f, c, held, data[p..p']);
        var q := p';
        done, p' := BodyAfterHeader(data, q);
        assert data[p..p'] == data[p..q] + data[q..p'];
        FeedAllAppend(f, s, data[p..q], data[q..p']);
      } else if Fixed(dscrType) {
        done, p' := ReadBody(data, p);
      } else {
        done, p' := SkipBody(data, p);
        FeedSkipped(f, s.context, s.phase.left, data[p..p']);
      }
    }

    /** One chunk of the stream. */
    method Parse(data: seq<uint8>)
      requires Valid()
      modifies this, varBuffer, valParser, theSkipper
      ensures Valid() && Filter() == old(Filter())
      ensures var r := FeedAll(Filter(), old(Value()), data);
        Value() == r.state && calls == old(calls) + r.calls
    {
      hide Feed, FeedAll;
      var p := 0;
      ghost var s := Value();
      FeedNothing(Filter(), s, data[..0]);
      while p < |data|
        invariant Valid() && Filter() == old(Filter()) && p <= |data|
        invariant FeedAll(Filter(), s, data[..p]).state == Value()
        invariant calls == old(calls) + FeedAll(Filter(), s, data[..p]).calls
      {
        ghost var q := p;
        var done;
        done, p := ParseDescriptor(data, p);
        assert data[..p] == data[..q] + data[q..p];
        FeedAllAppend(Filter(), s, data[..q], data[q..p]);
        if !done {
          assert data[..p] == data;
          return;
        }
      }
      assert data[..p] == data;
    }
  }

  lemma FeedNothing(f: Filter, s: State, bytes: seq<uint8>)
    requires bytes == []
    ensures FeedAll(f, s, bytes) == Outcome(s, [])
  {
  }
}
