/** The OneWire driver class on a bus of devices: its search, written the way
    the driver writes it, in place on an eight byte buffer. */
module OneWire {
  import opened RomTrie
  import opened ByteBits
  import opened RomBuffer
  import opened OneWireSearch

  const SEARCH_ROM: Byte := 0xF0
  const ALARM_SEARCH: Byte := 0xEC

  /** The wire and the devices on it. A device answers each search position with
      its bit, then with the complement, then drops out if the master writes the
      other bit. */
  class Bus {
    const presence: bool
    const devices: set<Rom>
    const alarming: set<Rom>
    var live: set<Rom>
    var position: nat
    var phase: nat

    constructor (presence: bool, devices: set<Rom>, alarming: set<Rom>)
      ensures this.presence == presence && this.devices == devices && this.alarming == alarming
    {
      this.presence, this.devices, this.alarming := presence, devices, alarming;
      live, position, phase := {}, 0, 0;
    }

    /** The devices that take part in a search: none without a presence pulse. */
    function Answering(command: Byte): set<Rom> {
      if !presence then {}
      else if command == SEARCH_ROM then devices
      else if command == ALARM_SEARCH then alarming
      else {}
    }

    /** A reset pulse; the answer is whether any device showed its presence. */
    method Reset() returns (present: bool)
      modifies this
      ensures present == presence
    {
      live, position, phase := {}, 0, 0;
      present := presence;
    }

    method Command(command: Byte)
      requires presence
      modifies this
      ensures live == Answering(command) && position == 0 && phase == 0
    {
      live, position, phase := Answering(command), 0, 0;
    }

    /** Addresses a single device: whatever search was going on is over. */
    method Select(rom: Rom)
      modifies this
    {
      live, position, phase := {rom} * devices, 0, 0;
    }

    method ReadBit() returns (bit: bool)
      requires phase < 2 && position < ROM_BITS
      modifies this`phase
      ensures phase == old(phase) + 1
      ensures bit == if old(phase) == 0 then Ones(live, position) else Zeros(live, position)
    {
      bit := if phase == 0 then Ones(live, position) else Zeros(live, position);
      phase := phase + 1;
    }

    method WriteBit(bit: bool)
      requires phase == 2 && position < ROM_BITS
      modifies this
      ensures live == Agreeing(old(live), old(position), bit)
      ensures phase == 0 && position == old(position) + 1
    {
      live := Agreeing(live, position, bit);
      phase, position := 0, position + 1;
    }
  }

  class OneWire {
    const bus: Bus
    const romNo: array<Byte>
    var lastDiscrepancy: nat
    var lastFamilyDiscrepancy: nat
    var lastDeviceFlag: bool

    ghost predicate Valid() {
      romNo.Length == 8
    }

    /** The search state, with the ROM buffer read as a bit string. */
    ghost function State(): SearchState
      requires Valid()
      reads this, romNo
    {
      SearchState(RomOf(romNo[..]), lastDiscrepancy, lastDeviceFlag)
    }

    constructor (bus: Bus)
      ensures Valid() && fresh(romNo) && this.bus == bus
      ensures Fresh(State())
    {
      this.bus := bus;
      romNo := new Byte[8];
      lastDiscrepancy, lastFamilyDiscrepancy, lastDeviceFlag := 0, 0, false;
    }

    method ResetSearch()
      requires Valid()
      modifies this, romNo
      ensures Fresh(State()) && romNo[..] == seq(8, _ => 0)
      ensures lastFamilyDiscrepancy == 0
    {
      lastDiscrepancy := 0;
      lastDeviceFlag := false;
      lastFamilyDiscrepancy := 0;
      var i := 7;
      while true
        invariant 0 <= i < 8
        invariant forall k | i < k < 8 :: romNo[k] == 0
        invariant lastDiscrepancy == 0 && !lastDeviceFlag && lastFamilyDiscrepancy == 0
        decreases i
      {
        romNo[i] := 0;
        if i == 0 { break; }
        i := i - 1;
      }
    }

    method TargetSearch(familyCode: Byte)
      requires Valid()
      modifies this, romNo
      ensures State() == Targeted(seq(8, k requires 0 <= k < 8 => BitOf(familyCode, k)))
      ensures romNo[0] == familyCode && lastFamilyDiscrepancy == 0
    {
      romNo[0] := familyCode;
      for i := 1 to 8
        invariant romNo[0] == familyCode && forall k | 1 <= k < i :: romNo[k] == 0
      {
        romNo[i] := 0;
      }
      lastDiscrepancy := 64;
      lastFamilyDiscrepancy := 0;
      lastDeviceFlag := false;
      forall i | 0 <= i < ROM_BITS
        ensures RomOf(romNo[..])[i] == (i < 8 && BitOf(familyCode, i % 8))
      {
        assert i >= 8 ==> romNo[..][i / 8] == 0;
      }
    }

    /** The direction taken at one bit, from the two bits read. */
    method PickDirection(idBit: bool, cmpIdBit: bool, idBitNumber: nat, romByteNumber: nat, romByteMask: Byte, ghost k: nat)
      returns (searchDirection: bool)
      requires Valid() && romByteNumber < 8 && k < 8 && romByteMask == Mask(k)
      requires idBitNumber == 8 * romByteNumber + k + 1
      ensures searchDirection ==
        if idBit != cmpIdBit then idBit
        else if idBitNumber < lastDiscrepancy then RomOf(romNo[..])[idBitNumber - 1]
        else idBitNumber == lastDiscrepancy
    {
      if idBit != cmpIdBit {
        searchDirection := idBit;
      } else if idBitNumber < lastDiscrepancy {
        BufferBit(romNo[..], romByteNumber, k);
        searchDirection := romNo[romByteNumber] & romByteMask > 0;
      } else {
        searchDirection := idBitNumber == lastDiscrepancy;
      }
    }

    /** The do-while loop of search: one pass over the bus, bit by bit, editing
        the ROM buffer in place. */
    method Descend() returns (idBitNumber: nat, lastZero: nat)
      requires Valid() && bus.presence
      requires bus.live == bus.Answering(SEARCH_ROM) && bus.position == 0 && bus.phase == 0
      modifies `lastFamilyDiscrepancy, romNo, bus
      ensures var roms, st, rom := bus.Answering(SEARCH_ROM), old(State()), RomOf(romNo[..]);
        if roms == {} then idBitNumber == 1 && rom == st.rom && lastFamilyDiscrepancy == old(lastFamilyDiscrepancy)
        else
          && idBitNumber == ROM_BITS + 1
          && Below(roms, []) != {}
          && rom == Walk(roms, st.rom, st.lastDiscrepancy, [])
          && lastZero == LastPending(roms, rom, ROM_BITS)
          && lastFamilyDiscrepancy == FamilyPending(roms, rom, ROM_BITS, old(lastFamilyDiscrepancy))
    {
      hide Mask, BitOf, RomOf, Walk, LastPending, Below, Agreeing, FamilyPending, AtNode, Ones, Zeros;
      idBitNumber := 1;
      lastZero := 0;
      var romByteNumber := 0;
      var romByteMask: Byte := 1;
      ghost var k: nat := 0;

      ghost var roms := bus.Answering(SEARCH_ROM);
      ghost var last := RomOf(romNo[..]);
      AtTheRoot(roms, last, lastDiscrepancy);
      MaskStep(0);

      while romByteNumber < 8
        decreases ROM_BITS + 1 - idBitNumber
        invariant 1 <= idBitNumber <= ROM_BITS + 1
        invariant k < 8 && idBitNumber - 1 == 8 * romByteNumber + k && romByteMask == Mask(k)
        invariant bus.position == idBitNumber - 1 && bus.phase == 0
        invariant bus.live == Below(roms, RomOf(romNo[..])[..idBitNumber - 1])
        invariant roms == {} ==> idBitNumber == 1 && RomOf(romNo[..]) == last
        invariant roms != {} ==> AtNode(roms, last, lastDiscrepancy, RomOf(romNo[..]), idBitNumber - 1, bus.live, lastZero)
        invariant lastFamilyDiscrepancy == FamilyPending(roms, RomOf(romNo[..]), idBitNumber - 1, old(lastFamilyDiscrepancy))
      {
        ghost var before := RomOf(romNo[..]);
        ghost var n := idBitNumber - 1;
        ghost var live := bus.live;
        ghost var zeroBefore := lastZero;

        var idBit := bus.ReadBit();
        var cmpIdBit := bus.ReadBit();
        assert idBit == AllOnes(roms, before[..n]) && cmpIdBit == AllZeros(roms, before[..n]);
        SomeoneAnswers(roms, last, lastDiscrepancy, before, n, live, lastZero);

        if idBit && cmpIdBit {
          break;
        }
        var searchDirection := PickDirection(idBit, cmpIdBit, idBitNumber, romByteNumber, romByteMask, k);
        if idBit == cmpIdBit && !searchDirection {
          lastZero := idBitNumber;
          if lastZero < 9 {
            lastFamilyDiscrepancy := lastZero;
          }
        }

        WriteBufferBit(romNo, romByteNumber, romByteMask, k, searchDirection);
        bus.WriteBit(searchDirection);
        NextNode(roms, last, lastDiscrepancy, before, RomOf(romNo[..]), n, live, zeroBefore, searchDirection, old(lastFamilyDiscrepancy));

        idBitNumber := idBitNumber + 1;
        MaskStep(k);
        romByteMask := romByteMask << 1;
        k := k + 1;
        if romByteMask == 0 {
          romByteNumber := romByteNumber + 1;
          romByteMask := 1;
          k := 0;
        }
      }
      if roms != {} {
        AtTheLeaf(roms, last, lastDiscrepancy, RomOf(romNo[..]), idBitNumber - 1, bus.live, lastZero);
      }
    }

    method Search(newAddr: array<Byte>) returns (found: bool)
      requires Valid() && newAddr.Length == 8 && newAddr != romNo
      modifies this, romNo, newAddr, bus
      ensures var (st', answer) := SearchStep(bus.Answering(SEARCH_ROM), old(State()));
        && State() == st'
        && found == answer.Some?
        && (found ==> RomOf(newAddr[..]) == answer.value)
      ensures lastFamilyDiscrepancy ==
        if found then FamilyPending(bus.Answering(SEARCH_ROM), RomOf(romNo[..]), ROM_BITS, old(lastFamilyDiscrepancy)) else 0
      ensures newAddr[..] == if old(lastDeviceFlag) || bus.presence then romNo[..] else old(newAddr[..])
    {
      var idBitNumber, lastZero := 1, 0;
      found := false;

      if !lastDeviceFlag {
        var present := bus.Reset();
        if !present {
          lastDiscrepancy := 0;
          lastDeviceFlag := false;
          lastFamilyDiscrepancy := 0;
          return false;
        }
        bus.Command(SEARCH_ROM);
        idBitNumber, lastZero := Descend();
        if !(idBitNumber < 65) {
          lastDiscrepancy := lastZero;
          if lastDiscrepancy == 0 {
            lastDeviceFlag := true;
          }
          found := true;
        }
      }

      FirstByteIsFamily(romNo[..]);
      if !found || romNo[0] == 0 {
        lastDiscrepancy := 0;
        lastDeviceFlag := false;
        lastFamilyDiscrepancy := 0;
        found := false;
      }
      CopyRom(romNo, newAddr);
    }
  }

  method CopyRom(from: array<Byte>, to: array<Byte>)
    requires from.Length == 8 && to.Length == 8 && from != to
    modifies to
    ensures to[..] == from[..]
  {
    for i := 0 to 8
      invariant to[..i] == from[..i]
    {
      to[i] := from[i];
    }
    assert to[..] == to[..8] && from[..] == from[..8];
  }

  /** Sets or clears the bit under the mask of one byte of a ROM buffer. */
  method WriteBufferBit(rom: array<Byte>, byteNumber: nat, mask: Byte, ghost k: nat, bit: bool)
    requires rom.Length == 8 && byteNumber < 8 && k < 8 && mask == Mask(k)
    modifies rom
    ensures RomOf(rom[..]) == old(RomOf(rom[..]))[8 * byteNumber + k := bit]
  {
    hide Mask, RomOf, Masked;
    WriteRomBit(rom[..], byteNumber, k, bit);
    rom[byteNumber] := Masked(rom[byteNumber], mask, bit);
    assert rom[..] == old(rom[..])[byteNumber := Masked(old(rom[byteNumber]), mask, bit)];
  }

  // ----- the invariant of a descent

  /** The descent has fixed the first n bits of `rom`: the devices still live are
      those below that node, the rest of the buffer is still the previous ROM,
      and the final ROM is already determined. */
  ghost predicate AtNode(roms: set<Rom>, last: Rom, discrepancy: nat, rom: Rom, n: nat, live: set<Rom>, lastZero: nat) {
    && n <= ROM_BITS
    && (forall i | n <= i < ROM_BITS :: rom[i] == last[i])
    && live == Below(roms, rom[..n])
    && live != {}
    && Below(roms, []) != {}
    && Walk(roms, last, discrepancy, rom[..n]) == Walk(roms, last, discrepancy, [])
    && lastZero == LastPending(roms, rom, n)
  }

  /** lastFamilyDiscrepancy once n bits are fixed: the deepest pending position
      of the family byte, or else what it was before the search. */
  ghost function FamilyPending(roms: set<Rom>, rom: Rom, n: nat, before: nat): nat {
    var pending := LastPending(roms, rom, if n < 8 then n else 8);
    if pending > 0 then pending else before
  }

  lemma AtTheRoot(roms: set<Rom>, last: Rom, discrepancy: nat)
    ensures roms != {} ==> AtNode(roms, last, discrepancy, last, 0, roms, 0)
    ensures Below(roms, last[..0]) == roms
    ensures forall before: nat :: FamilyPending(roms, last, 0, before) == before
  {
    EverythingIsBelowTheRoot(roms);
    assert last[..0] == [];
  }

  lemma SomeoneAnswers(roms: set<Rom>, last: Rom, discrepancy: nat, rom: Rom, n: nat, live: set<Rom>, lastZero: nat)
    requires n < ROM_BITS
    ensures AtNode(roms, last, discrepancy, rom, n, live, lastZero) ==>
      !(AllOnes(roms, rom[..n]) && AllZeros(roms, rom[..n])) && rom[n] == last[n]
    ensures AtNode(roms, last, discrepancy, rom, n, live, lastZero) ==>
      Below(roms, rom[..n]) != {} && lastZero == LastPending(roms, rom, n)
    ensures Below(roms, rom[..n]) == {} ==> AllOnes(roms, rom[..n]) && AllZeros(roms, rom[..n])
  {
    hide Walk, LastPending;
    if AtNode(roms, last, discrepancy, rom, n, live, lastZero) {
      var r :| r in live;
    }
  }

  lemma AtTheLeaf(roms: set<Rom>, last: Rom, discrepancy: nat, rom: Rom, n: nat, live: set<Rom>, lastZero: nat)
    requires AtNode(roms, last, discrepancy, rom, n, live, lastZero) && n == ROM_BITS
    ensures Below(roms, []) != {} && rom == Walk(roms, last, discrepancy, [])
    ensures lastZero == LastPending(roms, rom, ROM_BITS)
  {
    assert rom[..n] == rom;
  }

  lemma NextNode(roms: set<Rom>, last: Rom, discrepancy: nat, before: Rom, now: Rom, n: nat,
                 live: set<Rom>, lastZero: nat, bit: bool, family: nat)
    requires AtNode(roms, last, discrepancy, before, n, live, lastZero) && n < ROM_BITS
    requires bit == Direction(roms, last, discrepancy, before[..n])
    requires now == before[n := bit]
    ensures var pendingNow := Forks(roms, before[..n]) && !bit;
      && Below(roms, now[..n + 1]) == Agreeing(live, n, bit)
      && AtNode(roms, last, discrepancy, now, n + 1, Agreeing(live, n, bit), if pendingNow then n + 1 else lastZero)
      && FamilyPending(roms, now, n + 1, family)
         == if pendingNow && n + 1 < 9 then n + 1 else FamilyPending(roms, before, n, family)
  {
    hide LastPending, Below;
    var path := before[..n];
    assert now[..n + 1] == path + [bit];
    BelowStep(roms, path, bit);
    DirectionIsPopulated(roms, last, discrepancy, path);
    PendingAfterBit(roms, before, now, n);
    assert n >= 8 ==> LastPending(roms, now, 8) == LastPending(roms, before, 8);
  }

  /** Writing bit n leaves the pending positions up to n as they were, and makes
      n + 1 pending exactly when a zero was written at a fork. */
  lemma PendingAfterBit(roms: set<Rom>, before: Rom, now: Rom, n: nat)
    requires n < ROM_BITS && now == before[n := now[n]]
    requires !Forks(roms, before[..n]) ==> now[n] == AllOnes(roms, before[..n])
    requires Below(roms, before[..n]) != {}
    ensures forall m | 0 <= m <= n :: LastPending(roms, now, m) == LastPending(roms, before, m)
    ensures LastPending(roms, now, n + 1) == if Forks(roms, before[..n]) && !now[n] then n + 1 else LastPending(roms, before, n)
  {
    assert now[..n] == before[..n];
    forall m | 0 <= m <= n
      ensures LastPending(roms, now, m) == LastPending(roms, before, m)
    {
      assert before[..m] <= before && before[..m] <= now;
      LastPendingOfPrefix(roms, before[..m], before, m);
      LastPendingOfPrefix(roms, before[..m], now, m);
    }
    assert PendingOne(roms, now, n + 1) <==> !now[n] && exists r | r in Below(roms, before[..n]) :: r[n];
  }

  lemma FirstByteIsFamily(bytes: seq<Byte>)
    requires |bytes| == 8
    ensures ZeroFamily(RomOf(bytes)) <==> bytes[0] == 0
  {
    if ZeroFamily(RomOf(bytes)) {
      forall k | 0 <= k < 8
        ensures BitOf(bytes[0], k) == BitOf(0, k)
      {
        assert !RomOf(bytes)[k];
      }
      BitsDetermineByte(bytes[0], 0);
    }
  }
}
