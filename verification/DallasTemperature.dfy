/** The DallasTemperature driver on top of a OneWire bus: counting the devices,
    finding one by index, and the alarm search in place. */
module DallasTemperature {
  import opened RomTrie
  import opened ShiftRegister
  import opened ByteBits
  import opened RomBuffer
  import opened OneWireCrc
  import opened OneWireSearch
  import opened OneWire
  import opened AlarmSearch

  /** A ROM number carries its own CRC: taking in all 64 bits clears the register. */
  predicate ValidCrc(r: Rom) {
    Register8(r) == Zero(8)
  }

  /** Said otherwise: the last byte is the CRC of the first seven. */
  lemma ValidCrcIsOwnCrc(bytes: seq<Byte>)
    requires |bytes| == 8
    ensures ValidCrc(RomOf(bytes)) <==> Register8(BitsOf(bytes[..7])) == Bits8(bytes[7])
  {
    hide Run, RomOf, BitsOf, Bits8, Register8, Zero;
    assert bytes == bytes[..7] + [bytes[7]];
    RomIsMessage(bytes);
    OnlyOwnCrc8Clears(bytes[..7], bytes[7]);
  }

  /** The devices a 1-Wire search lists: none at all if one of them has a zero
      family byte. */
  ghost function Listing(q: seq<Rom>): seq<Rom> {
    if exists r | r in q :: ZeroFamily(r) then [] else q
  }

  lemma StepOfListing(roms: set<Rom>, q: seq<Rom>, st: SearchState, k: nat)
    requires Enumerates(q, roms) && Reached(roms, q, st, k) && k <= |Listing(q)|
    ensures var (st', answer) := SearchStep(roms, st);
      if k < |Listing(q)| then answer == Some(Listing(q)[k]) && Reached(roms, q, st', k + 1)
      else answer == None && Fresh(st')
  {
    hide Walk, LastPending, Less, SearchStep, ZeroFamily;
    if z :| z in q && ZeroFamily(z) {
      ZeroFamilyHidesAll(roms, st, z, 0);
      assert After(roms, st, 0) == st && After(roms, st, 1) == SearchStep(roms, st).0;
      ZeroFamilyHidesAll(roms, st, z, 1);
    } else {
      StepOfSweep(roms, q, st, k);
    }
  }

  function CountValid(q: seq<Rom>): nat {
    if q == [] then 0 else CountValid(q[..|q| - 1]) + if ValidCrc(q[|q| - 1]) then 1 else 0
  }

  lemma {:induction false} CountIsCardinality(q: seq<Rom>, roms: set<Rom>)
    requires Enumerates(q, roms)
    ensures CountValid(q) == |set r | r in roms && ValidCrc(r)|
  {
    hide ValidCrc, Less;
    if q == [] {
      assert roms == {};
    } else {
      var last, rest := q[|q| - 1], q[..|q| - 1];
      WithoutLast(q, roms);
      CountIsCardinality(rest, roms - {last});
      var smaller := set r | r in roms - {last} && ValidCrc(r);
      var all := set r | r in roms && ValidCrc(r);
      assert last in q;
      assert all == if ValidCrc(last) then smaller + {last} else smaller;
    }
  }

  /** `index` picks the k-th device found: the depth counter is a byte, so index
      255 also picks every 256th device after it. */
  predicate Picks(index: nat, k: nat) {
    k == index || (index == 255 && k % 256 == 255)
  }

  /** getAddress(index) finds a device in the list. */
  ghost predicate Finds(l: seq<Rom>, index: nat) {
    exists k | 0 <= k < |l| :: Picks(index, k) && ValidCrc(l[k])
  }

  /** On a bus of fewer than 256 devices, all with a valid CRC and a family byte
      that is not zero, begin counts them all and getAddress finds exactly the
      indices below the count. */
  lemma SmallValidBus(q: seq<Rom>, roms: set<Rom>, index: nat)
    requires Enumerates(q, roms) && |roms| < 256 && index < 256
    requires forall r | r in roms :: ValidCrc(r) && !ZeroFamily(r)
    ensures Listing(q) == q && CountValid(Listing(q)) % 256 == |roms|
    ensures Finds(q, index) <==> index < |roms|
    ensures forall k | 0 <= k < |q| :: Picks(index, k) ==> k == index
  {
    hide ValidCrc, ZeroFamily, Less;
    EnumerationSize(q, roms);
    CountIsCardinality(q, roms);
    assert (set r | r in roms && ValidCrc(r)) == roms;
    if index < |q| {
      assert q[index] in roms && Picks(index, index);
    }
  }

  lemma {:induction false} CountAtLeast(l: seq<Rom>, k: nat)
    requires k <= |l| && forall i | 0 <= i < k :: ValidCrc(l[i])
    ensures CountValid(l) >= k
    ensures (exists j | k <= j < |l| :: ValidCrc(l[j])) ==> CountValid(l) > k
    decreases |l|
  {
    hide ValidCrc;
    if l != [] {
      var n := |l| - 1;
      CountAtLeast(l[..n], if k <= n then k else n);
      if j :| k <= j < |l| && ValidCrc(l[j]) {
        assert j < n ==> l[..n][j] == l[j];
      }
    }
  }

  lemma {:induction false} CountAtMost(l: seq<Rom>, k: nat)
    requires k <= |l| && forall i | k <= i < |l| :: !ValidCrc(l[i])
    ensures CountValid(l) <= k
    decreases |l|
  {
    hide ValidCrc;
    if l != [] {
      var n := |l| - 1;
      CountAtMost(l[..n], if k <= n then k else n);
    }
  }

  /** No device with a valid CRC comes after one without. */
  ghost predicate ValidFirst(l: seq<Rom>) {
    forall i, j | 0 <= i < j < |l| && ValidCrc(l[j]) :: ValidCrc(l[i])
  }

  /** With fewer than 256 devices listed, getAddress succeeds for every index
      below the count of begin exactly when those with a valid CRC come first:
      begin counts the valid ones, getAddress indexes all. */
  lemma CountIndexesExactlyWhen(l: seq<Rom>)
    requires |l| < 256
    ensures (forall i: nat | i < CountValid(l) :: Finds(l, i)) <==> ValidFirst(l)
  {
    hide ValidCrc, CountValid, Finds;
    CountAtMost(l, |l|);
    if ValidFirst(l) {
      forall i: nat | i < CountValid(l)
        ensures Finds(l, i)
      {
        if !ValidCrc(l[i]) {
          CountAtMost(l, i);
        }
        FindsOnlyItself(l, i);
      }
    } else if forall i: nat | i < CountValid(l) :: Finds(l, i) {
      forall i | 0 <= i < CountValid(l)
        ensures ValidCrc(l[i])
      {
        FindsOnlyItself(l, i);
      }
      CountAtLeast(l, CountValid(l));
      assert false;
    }
  }

  lemma FindsOnlyItself(l: seq<Rom>, index: nat)
    requires |l| < 256 && index < |l|
    ensures Finds(l, index) <==> ValidCrc(l[index])
  {
    hide ValidCrc;
    assert Picks(index, index);
  }

  /** getAddress(index) succeeds exactly for the devices the index names, unless
      it is 255, device 255 is not valid and a valid one lies 256 or a multiple
      further on: the depth counter has come round to 255 again. */
  lemma IndexIsExactUnlessCounterWraps(l: seq<Rom>, index: nat)
    requires index < 256
    ensures (Finds(l, index) <==> index < |l| && ValidCrc(l[index])) <==>
            (|| index < 255
             || |l| <= 255
             || ValidCrc(l[255])
             || forall k | 255 < k < |l| && k % 256 == 255 :: !ValidCrc(l[k]))
  {
    hide ValidCrc;
    if index < |l| {
      assert Picks(index, index);
    }
    if k :| 0 <= k < |l| && Picks(index, k) && ValidCrc(l[k]) {
      assert k == index || (index == 255 && k > 255);
    }
    if index == 255 {
      forall k | 255 < k < |l| && k % 256 == 255
        ensures Picks(index, k)
      {
      }
    }
  }

  /** While the depth counter is a byte, it names device k. */
  lemma DepthPicks(index: nat, k: nat)
    requires index < 256 && (index < 255 ==> k <= index + 1)
    ensures Picks(index, k) <==> k % 256 == index
    ensures (k + 1) % 256 == (k % 256 + 1) % 256
    ensures k % 256 > index ==> k == index + 1 && forall j: nat | j >= k :: !Picks(index, j)
  {
  }

  class DallasTemperature {
    const wire: OneWire
    const alarmSearchAddress: array<Byte>
    var devices: nat
    var alarmSearchJunction: int
    var alarmSearchExhausted: bool

    ghost predicate Valid() {
      wire.Valid() && alarmSearchAddress.Length == 8 && alarmSearchAddress != wire.romNo
    }

    ghost function Alarm(): AlarmState
      requires Valid()
      reads this, alarmSearchAddress
    {
      AlarmState(RomOf(alarmSearchAddress[..]), alarmSearchJunction, alarmSearchExhausted)
    }

    constructor (wire: OneWire)
      requires wire.Valid()
      ensures Valid() && this.wire == wire && devices == 0 && fresh(alarmSearchAddress)
    {
      this.wire := wire;
      alarmSearchAddress := new Byte[8];
      devices := 0;
    }

    method ValidAddress(deviceAddress: array<Byte>) returns (valid: bool)
      requires deviceAddress.Length == 8
      ensures valid == ValidCrc(RomOf(deviceAddress[..]))
    {
      hide RomOf, BitsOf, Bits8, Register8, ValidCrc;
      var crc := Crc8(deviceAddress, 7);
      valid := crc == deviceAddress[7];
      ValidCrcIsOwnCrc(deviceAddress[..]);
      if Bits8(crc) == Bits8(deviceAddress[7]) {
        Bits8Injective(crc, deviceAddress[7]);
      }
    }

    /** Talking to one device: resets the bus and selects it, and with that ends
        whatever search the bus was following. */
    method ReadScratchPad(deviceAddress: array<Byte>)
      requires deviceAddress.Length == 8
      modifies wire.bus
    {
      var present := wire.bus.Reset();
      wire.bus.Select(RomOf(deviceAddress[..]));
    }

    /** Counts the devices with a valid CRC, modulo the byte the count is kept in. */
    method Begin(ghost q: seq<Rom>)
      requires Valid() && Enumerates(q, wire.bus.Answering(SEARCH_ROM))
      modifies this`devices, wire, wire.romNo, wire.bus
      ensures devices == CountValid(Listing(q)) % 256
      ensures Alarm() == old(Alarm())
    {
      hide RomOf, SearchStep, ValidCrc, Enumerates, LastPending, Less, ZeroFamily;
      var deviceAddress := new Byte[8];
      wire.ResetSearch();
      devices := 0;
      ghost var roms := wire.bus.Answering(SEARCH_ROM);
      ghost var l := Listing(q);
      ghost var k := 0;
      assert l[..0] == [];
      while true
        invariant fresh(deviceAddress) && deviceAddress.Length == 8 && Valid()
        invariant k <= |l| && Reached(roms, q, wire.State(), k)
        invariant devices == CountValid(l[..k]) % 256
        invariant Alarm() == old(Alarm())
        decreases |l| - k
      {
        StepOfListing(roms, q, wire.State(), k);
        var found := wire.Search(deviceAddress);
        if !found {
          break;
        }
        assert l[..k + 1][..k] == l[..k];
        k := k + 1;
        var valid := ValidAddress(deviceAddress);
        if valid {
          ReadScratchPad(deviceAddress);
          devices := (devices + 1) % 256;
        }
      }
      assert l[..k] == l;
    }

    method GetAddress(deviceAddress: array<Byte>, index: nat, ghost q: seq<Rom>) returns (found: bool)
      requires Valid() && deviceAddress.Length == 8 && deviceAddress != wire.romNo && index < 256
      requires Enumerates(q, wire.bus.Answering(SEARCH_ROM))
      modifies wire, wire.romNo, wire.bus, deviceAddress
      ensures found <==> Finds(Listing(q), index)
      ensures found ==> exists k | 0 <= k < |Listing(q)| ::
        && Picks(index, k)
        && RomOf(deviceAddress[..]) == Listing(q)[k]
        && forall j | 0 <= j < k :: !(Picks(index, j) && ValidCrc(Listing(q)[j]))
    {
      hide RomOf, SearchStep, ValidCrc, Enumerates, LastPending, Less, ZeroFamily, Picks;
      var depth := 0;
      wire.ResetSearch();
      ghost var roms := wire.bus.Answering(SEARCH_ROM);
      ghost var l := Listing(q);
      ghost var k := 0;
      while depth <= index
        invariant Valid() && k <= |l| && Reached(roms, q, wire.State(), k)
        invariant depth == k % 256 && (index < 255 ==> k <= index + 1)
        invariant forall j | 0 <= j < k :: !(Picks(index, j) && ValidCrc(l[j]))
        decreases |l| - k
      {
        StepOfListing(roms, q, wire.State(), k);
        DepthPicks(index, k);
        var more := wire.Search(deviceAddress);
        if !more {
          return false;
        }
        if depth == index {
          var valid := ValidAddress(deviceAddress);
          if valid {
            assert Picks(index, k) && ValidCrc(l[k]);
            return true;
          }
        }
        depth := (depth + 1) % 256;
        k := k + 1;
      }
      DepthPicks(index, k);
      found := false;
    }

    method ResetAlarmSearch()
      requires Valid()
      modifies this`alarmSearchJunction, this`alarmSearchExhausted, alarmSearchAddress
      ensures Rewound(Alarm())
      ensures forall i | 0 <= i < 7 :: alarmSearchAddress[i] == 0
      ensures alarmSearchAddress[7] == old(alarmSearchAddress[7])
    {
      alarmSearchJunction := -1;
      alarmSearchExhausted := false;
      for i := 0 to 7
        invariant forall k | 0 <= k < i :: alarmSearchAddress[k] == 0
        invariant alarmSearchAddress[7] == old(alarmSearchAddress[7])
        invariant alarmSearchJunction == -1 && !alarmSearchExhausted
      {
        alarmSearchAddress[i] := 0;
      }
    }

    /** The decision at a fork, from the pending junction and the last address. */
    method TakeJunction(i: nat, iByte: nat, iBit: Byte, lastJunction: int, done: bool)
      returns (a: bool, lastJunction': int, done': bool)
      requires Valid() && i < 64 && iByte == i / 8 && iBit == Mask(i % 8)
      modifies this`alarmSearchJunction
      ensures a == (i == old(alarmSearchJunction) || (i < old(alarmSearchJunction) && RomOf(alarmSearchAddress[..])[i]))
      ensures alarmSearchJunction ==
        if i == old(alarmSearchJunction) then lastJunction
        else if i < old(alarmSearchJunction) then old(alarmSearchJunction)
        else i
      ensures lastJunction' == if i < old(alarmSearchJunction) && !a then i else lastJunction
      ensures done' == (done && a)
    {
      a, lastJunction', done' := true, lastJunction, done;
      if i == alarmSearchJunction {
        a := true;
        alarmSearchJunction := lastJunction;
      } else if i < alarmSearchJunction {
        BufferBit(alarmSearchAddress[..], iByte, i % 8);
        if alarmSearchAddress[iByte] & iBit != 0 {
          a := true;
        } else {
          a := false;
          done' := false;
          lastJunction' := i;
        }
      } else {
        a := false;
        alarmSearchJunction := i;
        done' := false;
      }
    }

    method AlarmSearch(newAddr: array<Byte>) returns (found: bool)
      requires Valid() && newAddr.Length == 8 && newAddr != alarmSearchAddress && newAddr != wire.romNo
      modifies this`alarmSearchJunction, this`alarmSearchExhausted, alarmSearchAddress, newAddr, wire.bus
      ensures var (st', answer) := AlarmStep(wire.bus.Answering(ALARM_SEARCH), old(Alarm()));
        && Alarm() == st'
        && found == answer.Some?
        && (found ==> RomOf(newAddr[..]) == answer.value)
      ensures !found ==> newAddr[..] == old(newAddr[..])
    {
      hide Mask, BitOf, RomOf, Walk, LastPending, Below, Agreeing, AtNode, Ones, Zeros, JunctionAt;
      var lastJunction := -1;
      var done := true;

      if alarmSearchExhausted { return false; }
      var present := wire.bus.Reset();
      if !present { return false; }
      wire.bus.Command(ALARM_SEARCH);

      ghost var roms := wire.bus.Answering(ALARM_SEARCH);
      ghost var last := RomOf(alarmSearchAddress[..]);
      ghost var start := alarmSearchJunction;
      ghost var pending := 0;
      AtTheRoot(roms, last, AsDiscrepancy(start));
      NoJunctionYet(roms, last, start);

      for i := 0 to 64
        invariant wire.bus.position == i && wire.bus.phase == 0
        invariant wire.bus.live == Below(roms, RomOf(alarmSearchAddress[..])[..i])
        invariant roms == {} ==> i == 0 && RomOf(alarmSearchAddress[..]) == last && alarmSearchJunction == start
        invariant roms != {} ==> AtNode(roms, last, AsDiscrepancy(start), RomOf(alarmSearchAddress[..]), i, wire.bus.live, pending)
        invariant alarmSearchJunction == JunctionAt(roms, RomOf(alarmSearchAddress[..]), i, start)
        invariant i <= start ==> lastJunction == pending - 1
        invariant done == (pending == 0)
        invariant !alarmSearchExhausted && newAddr[..] == old(newAddr[..])
      {
        ghost var before, live := RomOf(alarmSearchAddress[..]), wire.bus.live;
        var a := wire.bus.ReadBit();
        var nota := wire.bus.ReadBit();
        var iByte, iBit := i / 8, Mask(i % 8);
        assert a == AllOnes(roms, before[..i]) && nota == AllZeros(roms, before[..i]);
        SomeoneAnswers(roms, last, AsDiscrepancy(start), before, i, live, pending);

        if a && nota { return false; }

        JunctionSoFar(roms, before, i, start);
        ghost var forks := !a && !nota;
        if !a && !nota {
          a, lastJunction, done := TakeJunction(i, iByte, iBit, lastJunction, done);
        }

        WriteBufferBit(alarmSearchAddress, iByte, iBit, i % 8, a);
        ghost var now := RomOf(alarmSearchAddress[..]);
        assert now == before[i := a] && now[i] == a;
        wire.bus.WriteBit(a);
        NextNode(roms, last, AsDiscrepancy(start), before, now, i, live, pending, a, 0);
        NextJunction(roms, before, now, i, start, pending);
        pending := if forks && !a then i + 1 else pending;
      }
      AtTheLeaf(roms, last, AsDiscrepancy(start), RomOf(alarmSearchAddress[..]), 64, wire.bus.live, pending);

      if done { alarmSearchExhausted := true; }
      CopyRom(alarmSearchAddress, newAddr);
      found := true;
    }
  }

  // ----- the junction during a descent

  lemma NoJunctionYet(roms: set<Rom>, rom: Rom, start: int)
    ensures JunctionAt(roms, rom, 0, start) == start
  {
  }

  /** The old junction stays put until the walk has passed it. */
  lemma JunctionSoFar(roms: set<Rom>, rom: Rom, n: nat, start: int)
    requires n <= ROM_BITS
    ensures n <= start ==> JunctionAt(roms, rom, n, start) == start
    ensures start < n ==> JunctionAt(roms, rom, n, start) < n
  {
    hide Forks;
  }

  lemma NextJunction(roms: set<Rom>, before: Rom, now: Rom, n: nat, start: int, pending: nat)
    requires n < ROM_BITS && now == before[n := now[n]]
    requires !Forks(roms, before[..n]) ==> now[n] == AllOnes(roms, before[..n])
    requires Forks(roms, before[..n]) && n >= start ==> now[n] == (n == start)
    requires Below(roms, before[..n]) != {} && pending == LastPending(roms, before, n)
    ensures JunctionAt(roms, now, n + 1, start) ==
      if Forks(roms, before[..n]) && n == start then pending - 1
      else if Forks(roms, before[..n]) && n > start then n
      else JunctionAt(roms, before, n, start)
  {
    hide LastPending, Forks;
    PendingAfterBit(roms, before, now, n);
    if 0 <= start <= n {
      assert now[..start] == before[..start];
    }
  }
}
