/** The alarm search of DallasTemperature: a second algorithm for the same walk,
    with its own bookkeeping, and its refinement to the 1-Wire search. */
module AlarmSearch {
  import opened RomTrie
  import opened OneWireSearch

  /** `junction` is a position counted from 0, or -1; the search keeps the
      deepest zero it still has to come back to. */
  datatype AlarmState = AlarmState(rom: Rom, junction: int, exhausted: bool)

  /** The junction once the first n bits of `rom` are fixed. It leaves its old
      value when the walk passes a deeper zero, or when it turns the old junction
      into a one; then it is the deepest zero so far. */
  function JunctionAt(roms: set<Rom>, rom: Rom, n: nat, before: int): int
    requires n <= ROM_BITS
  {
    var deepest := LastPending(roms, rom, n) - 1;
    if (deepest >= 0 && deepest > before) || (0 <= before < n && Forks(roms, rom[..before])) then deepest else before
  }

  /** One call with exactly the devices `roms` responding to the alarm command. */
  function AlarmStep(roms: set<Rom>, st: AlarmState): (AlarmState, Option<Rom>) {
    if st.exhausted || roms == {} then (st, None)
    else
      EverythingIsBelowTheRoot(roms);
      var r := Walk(roms, st.rom, AsDiscrepancy(st.junction), []);
      (AlarmState(r, JunctionAt(roms, r, ROM_BITS, st.junction), LastPending(roms, r, ROM_BITS) == 0), Some(r))
  }

  /** The position the search counts from 1 and the alarm search from 0. */
  function AsDiscrepancy(junction: int): nat {
    if junction < 0 then 0 else junction + 1
  }

  predicate Rewound(st: AlarmState) {
    st.junction == -1 && !st.exhausted
  }

  ghost predicate AlarmReached(roms: set<Rom>, q: seq<Rom>, st: AlarmState, k: nat) {
    && k <= |q|
    && (k == 0 ==> Rewound(st))
    && (k > 0 ==>
          && st.rom == q[k - 1]
          && st.junction + 1 == LastPending(roms, st.rom, ROM_BITS)
          && st.exhausted == (st.junction == -1))
  }

  function AlarmAfter(roms: set<Rom>, st: AlarmState, n: nat): AlarmState {
    if n == 0 then st else AlarmStep(roms, AlarmAfter(roms, st, n - 1)).0
  }

  function AlarmAnswer(roms: set<Rom>, st: AlarmState, n: nat): Option<Rom> {
    AlarmStep(roms, AlarmAfter(roms, st, n)).1
  }

  /** Coming back to a pending junction, the walk finds a fork there, so the
      junction moves on. */
  lemma JunctionMovesOn(roms: set<Rom>, r: Rom, w: Rom, junction: int)
    requires r in roms && 0 <= junction == LastPending(roms, r, ROM_BITS) - 1
    requires w[..junction] == r[..junction]
    ensures JunctionAt(roms, w, ROM_BITS, junction) == LastPending(roms, w, ROM_BITS) - 1
  {
    hide LastPending;
    PendingMeansFork(roms, r, junction + 1);
  }

  lemma AlarmStepAlong(roms: set<Rom>, q: seq<Rom>, st: AlarmState, k: nat)
    requires Enumerates(q, roms) && AlarmReached(roms, q, st, k)
    ensures var (st', answer) := AlarmStep(roms, st);
      if k < |q| then answer == Some(q[k]) && AlarmReached(roms, q, st', k + 1)
      else answer == None && st' == st
  {
    hide Walk, LastPending, Less;
    EverythingIsBelowTheRoot(roms);
    if q == [] {
      assert roms == {};
    } else if k == 0 {
      assert q[0] in roms;
      FirstAnswer(roms, q, SearchState(st.rom, 0, false));
    } else if k < |q| {
      assert q[k] in roms && q[k - 1] in roms;
      NextAnswer(roms, q, k);
      WalkTurnsAtDiscrepancy(roms, q[k - 1]);
      JunctionMovesOn(roms, q[k - 1], q[k], st.junction);
    } else {
      assert q[0] in roms;
      NoFurtherAnswer(roms, q);
    }
  }

  /** The walk keeps every bit before the last discrepancy. */
  lemma WalkTurnsAtDiscrepancy(roms: set<Rom>, r: Rom)
    requires r in roms && Below(roms, []) != {}
    ensures var d := LastPending(roms, r, ROM_BITS);
      d > 0 ==> Walk(roms, r, d, [])[..d - 1] == r[..d - 1]
  {
    var d := LastPending(roms, r, ROM_BITS);
    if d > 0 {
      assert r[..0] == [];
      WalkRetraces(roms, r, d, 0);
      var w := Walk(roms, r, d, r[..d - 1]);
      assert w[..d - 1] == r[..d - 1];
    }
  }

  lemma {:induction false} AlarmStateInSweep(roms: set<Rom>, q: seq<Rom>, st: AlarmState, n: nat)
    requires Enumerates(q, roms) && Rewound(st)
    ensures AlarmReached(roms, q, AlarmAfter(roms, st, n), if n <= |q| then n else |q|)
  {
    hide Walk, LastPending, Less, AlarmStep, Enumerates;
    if n > 0 {
      AlarmStateInSweep(roms, q, st, n - 1);
      AlarmStepAlong(roms, q, AlarmAfter(roms, st, n - 1), if n - 1 <= |q| then n - 1 else |q|);
    }
  }

  /** After a rewind the alarm search answers with every responding device once,
      in increasing order, and then with false for ever: whatever is left in the
      address buffer, and even for a device with a zero family byte. */
  lemma AlarmSearchEnumerates(roms: set<Rom>, q: seq<Rom>, st: AlarmState, n: nat)
    requires Enumerates(q, roms) && Rewound(st)
    ensures AlarmAnswer(roms, st, n) == if n < |q| then Some(q[n]) else None
  {
    hide Walk, LastPending, Less, AlarmStep, Enumerates;
    AlarmStateInSweep(roms, q, st, n);
    AlarmStepAlong(roms, q, AlarmAfter(roms, st, n), if n <= |q| then n else |q|);
  }

  /** The alarm search refines the 1-Wire search: through a whole sweep the two
      give the same answers, and their states correspond. */
  lemma AlarmSearchRefinesSearch(roms: set<Rom>, alarm: AlarmState, search: SearchState, n: nat)
    requires Rewound(alarm) && Fresh(search) && n <= |roms|
    requires forall r | r in roms :: !ZeroFamily(r)
    ensures AlarmAnswer(roms, alarm, n) == Answer(roms, search, n)
    ensures var (a, s) := (AlarmAfter(roms, alarm, n), After(roms, search, n));
      && a.junction + 1 == s.lastDiscrepancy
      && a.exhausted == s.lastDeviceFlag
      && (n > 0 ==> a.rom == s.rom)
  {
    hide Walk, LastPending, Less, AlarmStep, SearchStep, Enumerates;
    var q := EnumerationExists(roms);
    EnumerationSize(q, roms);
    AlarmSearchEnumerates(roms, q, alarm, n);
    AlarmStateInSweep(roms, q, alarm, n);
    SearchEnumerates(roms, q, search, n);
    StateInSweep(roms, q, search, n);
    FirstRound(n, |q|);
    RoundsAtPosition(q, n);
  }

  lemma {:induction false} FirstRound(n: nat, size: nat)
    requires n <= size
    ensures Position(n, size) == n
  {
    if n > 0 {
      FirstRound(n - 1, size);
    }
  }
}
