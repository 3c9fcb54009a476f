/** The two resumable readers the descriptor parser is built from: one fills a
    value, the other drops bytes, each over as many chunks as it takes. */
module ParseTools {
  import opened Integers

  class MultiByteValueParser {
    var offset: nat
    var countDown: uint8
    var valueSize: uint8

    ghost predicate Valid(buffer: array<uint8>)
      reads this
    {
      countDown <= valueSize && offset + valueSize <= buffer.Length
    }

    constructor (offset: nat, size: uint8)
      ensures this.offset == offset && countDown == size && valueSize == size
    {
      this.offset := offset;
      countDown := size;
      valueSize := size;
    }

    method Initialize(offset: nat, size: uint8)
      modifies this
      ensures this.offset == offset && countDown == size && valueSize == size
    {
      this.offset := offset;
      countDown := size;
      valueSize := size;
    }

    /** Moves bytes of `data` from p on into the value, until it is whole or the
        data runs out; a whole value rearms the parser. */
    method Parse(buffer: array<uint8>, data: seq<uint8>, p: nat) returns (done: bool, p': nat)
      requires Valid(buffer) && p <= |data|
      modifies this`countDown, buffer
      ensures Valid(buffer)
      ensures p' == p + Min(old(countDown), |data| - p)
      ensures done == (old(countDown) <= |data| - p)
      ensures countDown == if done then valueSize else old(countDown) - (p' - p)
      ensures var at := offset + valueSize - old(countDown);
        buffer[..] == old(buffer[..at]) + data[p..p'] + old(buffer[at + (p' - p)..])
    {
      p' := p;
      ghost var at := offset + valueSize - countDown;
      while countDown > 0 && p' < |data|
        invariant p <= p' <= |data| && countDown == old(countDown) - (p' - p)
        invariant forall i | 0 <= i < buffer.Length ::
          buffer[i] == if at <= i < at + (p' - p) then data[p + i - at] else old(buffer[i])
      {
        buffer[offset + valueSize - countDown] := data[p'];
        countDown := countDown - 1;
        p' := p' + 1;
      }
      if countDown > 0 {
        return false, p';
      }
      countDown := valueSize;
      done := true;
    }
  }

  class ByteSkipper {
    var nStage: nat
    var countDown: uint16

    constructor ()
      ensures nStage == 0 && countDown == 0
    {
      nStage := 0;
      countDown := 0;
    }

    /** Bytes this call has to drop before it is done. */
    function Wanted(bytesToSkip: uint16): uint16
      reads this
    {
      if nStage == 0 then bytesToSkip else countDown
    }

    method Skip(data: seq<uint8>, p: nat, bytesToSkip: uint16) returns (done: bool, p': nat)
      requires nStage <= 1 && p <= |data|
      modifies this
      ensures p' == p + Min(old(Wanted(bytesToSkip)), |data| - p)
      ensures done == (old(Wanted(bytesToSkip)) <= |data| - p)
      ensures nStage == (if done then 0 else 1) && countDown == old(Wanted(bytesToSkip)) - (p' - p)
    {
      if nStage == 0 {
        countDown := bytesToSkip;
        nStage := nStage + 1;
      }
      p' := p;
      while countDown > 0 && p' < |data|
        invariant nStage == 1 && p <= p' <= |data| && countDown == old(Wanted(bytesToSkip)) - (p' - p)
      {
        countDown := countDown - 1;
        p' := p' + 1;
      }
      if countDown == 0 {
        nStage := 0;
      }
      done := countDown == 0;
    }
  }
}
