/** The 1-Wire search as a function of the set of devices on the bus, and what
    it promises: successive calls enumerate the set in increasing order. */
module OneWireSearch {
  import opened RomTrie

  datatype Option<+T> = None | Some(value: T)

  /** What a search remembers between calls. */
  datatype SearchState = SearchState(rom: Rom, lastDiscrepancy: nat, lastDeviceFlag: bool)

  /** The bit written at a trie node: forced where the devices agree; at a fork
      the previous ROM's bit before the last discrepancy, one at it, zero after. */
  function Direction(roms: set<Rom>, last: Rom, discrepancy: nat, path: Path): bool
    requires |path| < ROM_BITS
  {
    if !Forks(roms, path) then AllOnes(roms, path)
    else if |path| + 1 < discrepancy then last[|path|]
    else |path| + 1 == discrepancy
  }

  lemma DirectionIsPopulated(roms: set<Rom>, last: Rom, discrepancy: nat, path: Path)
    requires |path| < ROM_BITS && Below(roms, path) != {}
    ensures Below(roms, path + [Direction(roms, last, discrepancy, path)]) != {}
  {
    var bit := Direction(roms, last, discrepancy, path);
    BelowStep(roms, path, bit);
    var r :| r in Below(roms, path) && r[|path|] == bit;
    assert r in Below(roms, path + [bit]);
  }

  /** The ROM reached by following `Direction` from `path` down. */
  function Walk(roms: set<Rom>, last: Rom, discrepancy: nat, path: Path): (r: Rom)
    requires |path| <= ROM_BITS && Below(roms, path) != {}
    ensures path <= r && r in roms
    decreases ROM_BITS - |path|
  {
    if |path| == ROM_BITS then
      var r :| r in Below(roms, path) && r == path;
      r
    else
      DirectionIsPopulated(roms, last, discrepancy, path);
      Walk(roms, last, discrepancy, path + [Direction(roms, last, discrepancy, path)])
  }

  predicate ZeroFamily(r: Rom) {
    forall i | 0 <= i < 8 :: !r[i]
  }

  /** One call of the search on a bus with exactly the devices `roms`. */
  function SearchStep(roms: set<Rom>, st: SearchState): (SearchState, Option<Rom>) {
    if st.lastDeviceFlag || roms == {} then
      (SearchState(st.rom, 0, false), None)
    else
      EverythingIsBelowTheRoot(roms);
      var r := Walk(roms, st.rom, st.lastDiscrepancy, []);
      var pending := LastPending(roms, r, ROM_BITS);
      if ZeroFamily(r) then (SearchState(r, 0, false), None)
      else (SearchState(r, pending, pending == 0), Some(r))
  }

  lemma EverythingIsBelowTheRoot(roms: set<Rom>)
    ensures Below(roms, []) == roms
  {
  }

  // ----- what one walk reaches

  /** Below the last discrepancy the walk takes the least device. */
  lemma {:induction false} WalkIsLeast(roms: set<Rom>, last: Rom, discrepancy: nat, path: Path, s: Rom)
    requires discrepancy <= |path| <= ROM_BITS && s in Below(roms, path)
    ensures var w := Walk(roms, last, discrepancy, path); s == w || Less(w, s)
    decreases ROM_BITS - |path|
  {
    if |path| == ROM_BITS {
      assert s == path;
    } else {
      var bit := Direction(roms, last, discrepancy, path);
      BelowStep(roms, path, bit);
      DirectionIsPopulated(roms, last, discrepancy, path);
      var w := Walk(roms, last, discrepancy, path);
      if s[|path|] == bit {
        WalkIsLeast(roms, last, discrepancy, path + [bit], s);
      } else {
        assert w[|path|] == (path + [bit])[|path|] == bit;
        assert w[..|path|] == (path + [bit])[..|path|] == path == s[..|path|];
        assert SplitsAt(w, s, |path|);
      }
    }
  }

  /** Before the last discrepancy the walk retraces the previous ROM. */
  lemma {:induction false} WalkRetraces(roms: set<Rom>, last: Rom, discrepancy: nat, k: nat)
    requires last in roms && k < discrepancy <= ROM_BITS
    ensures Below(roms, last[..k]) != {} && Below(roms, last[..discrepancy - 1]) != {}
    ensures Walk(roms, last, discrepancy, last[..k]) == Walk(roms, last, discrepancy, last[..discrepancy - 1])
    decreases discrepancy - k
  {
    assert last in Below(roms, last[..k]) && last in Below(roms, last[..discrepancy - 1]);
    if k < discrepancy - 1 {
      assert Direction(roms, last, discrepancy, last[..k]) == last[k];
      assert last[..k] + [last[k]] == last[..k + 1];
      WalkRetraces(roms, last, discrepancy, k + 1);
    }
  }

  /** `w` is the least member of `roms` above `r`. */
  ghost predicate IsSuccessor(roms: set<Rom>, r: Rom, w: Rom) {
    && w in roms
    && Less(r, w)
    && forall s | s in roms && Less(r, s) :: s == w || Less(w, s)
  }

  lemma GreaterMeansPending(roms: set<Rom>, r: Rom, s: Rom, i: nat)
    requires s in roms && SplitsAt(r, s, i)
    ensures PendingOne(roms, r, i + 1) && i + 1 <= LastPending(roms, r, ROM_BITS)
  {
    assert r[..i] <= s;
  }

  /** The heart of the search: from the deepest pending zero of a device the
      walk finds exactly that device's successor. */
  lemma WalkIsSuccessor(roms: set<Rom>, r: Rom)
    requires r in roms
    ensures Below(roms, []) != {}
    ensures var d := LastPending(roms, r, ROM_BITS);
      d > 0 ==> IsSuccessor(roms, r, Walk(roms, r, d, []))
  {
    EverythingIsBelowTheRoot(roms);
    var d := LastPending(roms, r, ROM_BITS);
    if d > 0 {
      var w := Walk(roms, r, d, []);
      var path := r[..d - 1];
      assert r[..0] == [];
      WalkRetraces(roms, r, d, 0);
      PendingMeansFork(roms, r, d);
      DirectionIsPopulated(roms, r, d, path);
      assert w == Walk(roms, r, d, path + [true]);
      assert w[d - 1] && w[..d - 1] == (path + [true])[..d - 1] == r[..d - 1];
      assert SplitsAt(r, w, d - 1);
      forall s | s in roms && Less(r, s)
        ensures s == w || Less(w, s)
      {
        var i: nat :| SplitsAt(r, s, i);
        GreaterMeansPending(roms, r, s, i);
        if i == d - 1 {
          BelowStep(roms, path, true);
          WalkIsLeast(roms, r, d, path + [true], s);
        } else {
          SplitsAsBefore(r, w, s, i, d - 1);
        }
      }
    }
  }

  lemma SplitsAsBefore(r: Rom, w: Rom, s: Rom, i: nat, n: nat)
    requires i < n <= ROM_BITS && w[..n] == r[..n] && SplitsAt(r, s, i)
    ensures SplitsAt(w, s, i)
  {
    assert w[..n][..i] == s[..i] && w[..n][i] == r[..n][i];
  }

  lemma PendingMeansFork(roms: set<Rom>, r: Rom, d: nat)
    requires r in roms && 0 < d <= ROM_BITS && PendingOne(roms, r, d)
    ensures Forks(roms, r[..d - 1])
  {
    var s :| s in roms && r[..d - 1] <= s && s[d - 1];
    assert r in Below(roms, r[..d - 1]) && s in Below(roms, r[..d - 1]);
  }

  lemma NothingGreater(roms: set<Rom>, r: Rom, s: Rom)
    requires LastPending(roms, r, ROM_BITS) == 0 && s in roms
    ensures !Less(r, s)
  {
    forall i: nat | SplitsAt(r, s, i)
      ensures false
    {
      GreaterMeansPending(roms, r, s, i);
    }
  }

  // ----- whole runs

  function After(roms: set<Rom>, st: SearchState, n: nat): SearchState {
    if n == 0 then st else SearchStep(roms, After(roms, st, n - 1)).0
  }

  /** The answer of the (n+1)-st call of a run that starts in `st`. */
  function Answer(roms: set<Rom>, st: SearchState, n: nat): Option<Rom> {
    SearchStep(roms, After(roms, st, n)).1
  }

  /** The state reset_search leaves, whatever ROM is in the buffer. */
  predicate Fresh(st: SearchState) {
    st.lastDiscrepancy == 0 && !st.lastDeviceFlag
  }

  /** The state after returning the first `k` entries of `q`. */
  ghost predicate Reached(roms: set<Rom>, q: seq<Rom>, st: SearchState, k: nat) {
    && k <= |q|
    && (k == 0 ==> Fresh(st))
    && (k > 0 ==>
          && st.rom == q[k - 1]
          && st.lastDiscrepancy == LastPending(roms, st.rom, ROM_BITS)
          && st.lastDeviceFlag == (st.lastDiscrepancy == 0))
  }

  /** The answers an enumerating search gives: q over and over, each round
      closed by one negative answer. */
  function Rounds<T>(q: seq<T>, n: nat): Option<T> {
    var k := n % (|q| + 1);
    if k == |q| then None else Some(q[k])
  }

  lemma StepOfSweep(roms: set<Rom>, q: seq<Rom>, st: SearchState, k: nat)
    requires Enumerates(q, roms) && Reached(roms, q, st, k)
    requires forall r | r in roms :: !ZeroFamily(r)
    ensures var (st', answer) := SearchStep(roms, st);
      if k < |q| then answer == Some(q[k]) && Reached(roms, q, st', k + 1)
      else answer == None && Fresh(st')
  {
    hide Walk, LastPending, Less;
    EverythingIsBelowTheRoot(roms);
    if q == [] {
      assert roms == {};
    } else if k == 0 {
      assert q[0] in roms;
      FirstAnswer(roms, q, st);
    } else if k < |q| {
      assert q[k] in roms;
      NextAnswer(roms, q, k);
    } else {
      assert q[0] in roms;
      NoFurtherAnswer(roms, q);
    }
  }

  lemma NextAnswer(roms: set<Rom>, q: seq<Rom>, k: nat)
    requires Enumerates(q, roms) && 0 < k < |q| && Below(roms, []) != {}
    ensures var d := LastPending(roms, q[k - 1], ROM_BITS);
      d > 0 && Walk(roms, q[k - 1], d, []) == q[k]
  {
    hide Walk, LastPending, Less;
    assert q[k - 1] in roms && q[k] in roms && Less(q[k - 1], q[k]);
    var d := LastPending(roms, q[k - 1], ROM_BITS);
    if d == 0 {
      NothingGreater(roms, q[k - 1], q[k]);
    } else {
      WalkIsSuccessor(roms, q[k - 1]);
      var w := Walk(roms, q[k - 1], d, []);
      NothingBetween(q, roms, k, w);
      if w != q[k] {
        LessIsAsymmetric(w, q[k]);
      }
    }
  }

  lemma NoFurtherAnswer(roms: set<Rom>, q: seq<Rom>)
    requires Enumerates(q, roms) && q != [] && Below(roms, []) != {}
    ensures LastPending(roms, q[|q| - 1], ROM_BITS) == 0
  {
    hide Walk, LastPending, Less;
    var last := q[|q| - 1];
    assert last in roms;
    WalkIsSuccessor(roms, last);
    var d := LastPending(roms, last, ROM_BITS);
    if d > 0 {
      NothingAfterTheLast(q, roms, Walk(roms, last, d, []));
    }
  }

  /** Every set of devices has an enumeration. */
  lemma {:induction false} EnumerationExists(roms: set<Rom>) returns (q: seq<Rom>)
    ensures Enumerates(q, roms)
  {
    if roms == {} {
      q := [];
    } else {
      EverythingIsBelowTheRoot(roms);
      var r :| r in roms;
      var least := Walk(roms, r, 0, []);
      var rest := EnumerationExists(roms - {least});
      q := [least] + rest;
      forall i | 0 <= i < |rest|
        ensures Less(least, rest[i])
      {
        assert rest[i] in roms - {least};
        WalkIsLeast(roms, r, 0, [], rest[i]);
      }
      forall s: Rom
        ensures s in roms <==> s in q
      {
        assert s in q <==> s == least || s in rest;
      }
    }
  }

  lemma FirstAnswer(roms: set<Rom>, q: seq<Rom>, st: SearchState)
    requires Enumerates(q, roms) && q != [] && Fresh(st)
    ensures Below(roms, []) != {} && Walk(roms, st.rom, 0, []) == q[0]
  {
    EverythingIsBelowTheRoot(roms);
    assert q[0] in roms;
    WalkIsLeast(roms, st.rom, 0, [], q[0]);
    var w := Walk(roms, st.rom, 0, []);
    var i :| 0 <= i < |q| && q[i] == w;
    if i > 0 {
      assert Less(q[0], q[i]);
      LessIsAsymmetric(q[0], w);
    }
  }

  lemma NothingAfterTheLast(q: seq<Rom>, roms: set<Rom>, w: Rom)
    requires Enumerates(q, roms) && q != [] && w in roms
    ensures !Less(q[|q| - 1], w)
  {
    var i :| 0 <= i < |q| && q[i] == w;
    if i < |q| - 1 {
      LessIsAsymmetric(q[i], q[|q| - 1]);
    }
  }

  lemma {:induction false} StateInSweep(roms: set<Rom>, q: seq<Rom>, st: SearchState, n: nat)
    requires Enumerates(q, roms) && Fresh(st)
    requires forall r | r in roms :: !ZeroFamily(r)
    ensures Reached(roms, q, After(roms, st, n), Position(n, |q|))
  {
    hide Walk, LastPending, Less, SearchStep, Enumerates;
    if n > 0 {
      StateInSweep(roms, q, st, n - 1);
      StepOfSweep(roms, q, After(roms, st, n - 1), Position(n - 1, |q|));
    }
  }

  /** How far into a round of `size` + 1 calls the (n+1)-st call lies. */
  function Position(n: nat, size: nat): (k: nat)
    ensures k <= size
  {
    if n == 0 || Position(n - 1, size) == size then 0 else Position(n - 1, size) + 1
  }

  lemma {:induction false} PositionIsRemainder(n: nat, size: nat)
    ensures Position(n, size) == n % (size + 1)
  {
    if n > 0 {
      PositionIsRemainder(n - 1, size);
      NextRemainder(n - 1, size + 1);
    }
  }

  lemma RoundsAtPosition<T>(q: seq<T>, n: nat)
    ensures Rounds(q, n) == if Position(n, |q|) == |q| then None else Some(q[Position(n, |q|)])
  {
    PositionIsRemainder(n, |q|);
  }

  lemma NextRemainder(n: nat, m: nat)
    requires m > 0
    ensures (n + 1) % m == if n % m == m - 1 then 0 else n % m + 1
  {
    var quotient, k := n / m, n % m;
    assert n == quotient * m + k;
    assert (quotient + 1) * m == quotient * m + m;
    if k == m - 1 {
      RemainderIs(n + 1, m, quotient + 1, 0);
    } else {
      RemainderIs(n + 1, m, quotient, k + 1);
    }
  }

  lemma RemainderIs(n: int, m: int, quotient: int, k: int)
    requires 0 <= k < m && n == quotient * m + k
    ensures n % m == k
  {
    var d := n / m - quotient;
    assert d * m == k - n % m;
    assert d >= 1 ==> d * m >= m;
    assert d <= -1 ==> d * m <= -m;
  }

  /** After a reset, for every fixed set of devices none of which has a zero
      family byte, the search answers with every device exactly once in
      increasing order, then with FALSE, and so on round after round. */
  lemma SearchEnumerates(roms: set<Rom>, q: seq<Rom>, st: SearchState, n: nat)
    requires Enumerates(q, roms) && Fresh(st)
    requires forall r | r in roms :: !ZeroFamily(r)
    ensures Answer(roms, st, n) == Rounds(q, n)
  {
    StateInSweep(roms, q, st, n);
    StepOfSweep(roms, q, After(roms, st, n), Position(n, |q|));
    RoundsAtPosition(q, n);
  }

  /** One device with a zero family byte hides every device on the bus. */
  lemma {:induction false} ZeroFamilyHidesAll(roms: set<Rom>, st: SearchState, z: Rom, n: nat)
    requires z in roms && ZeroFamily(z) && Fresh(st)
    ensures Fresh(After(roms, st, n)) && Answer(roms, st, n) == None
  {
    if n > 0 {
      ZeroFamilyHidesAll(roms, st, z, n - 1);
    }
    var now := After(roms, st, n);
    EverythingIsBelowTheRoot(roms);
    WalkIsLeast(roms, now.rom, 0, [], z);
    var w := Walk(roms, now.rom, 0, []);
    if w != z {
      var i: nat :| SplitsAt(w, z, i);
      assert i >= 8;
      forall k | 0 <= k < 8
        ensures !w[k]
      {
        assert w[..i][k] == z[..i][k];
      }
    }
  }

  /** The exact condition under which a reset search enumerates the bus. */
  lemma SearchEnumeratesExactlyWhen(roms: set<Rom>, q: seq<Rom>, st: SearchState)
    requires Enumerates(q, roms) && Fresh(st)
    ensures (forall n: nat :: Answer(roms, st, n) == Rounds(q, n)) <==> (forall r | r in roms :: !ZeroFamily(r))
  {
    if forall r | r in roms :: !ZeroFamily(r) {
      forall n: nat
        ensures Answer(roms, st, n) == Rounds(q, n)
      {
        SearchEnumerates(roms, q, st, n);
      }
    } else {
      var z :| z in roms && ZeroFamily(z);
      ZeroFamilyHidesAll(roms, st, z, 0);
      assert z in q;
      assert Rounds(q, 0) == Some(q[0]);
      assert Answer(roms, st, 0) != Rounds(q, 0);
    }
  }

  /** Whatever state a successful call started from, the next call answers with
      the successor of the device just found, or with FALSE if there is none
      (or if that successor has a zero family byte). */
  lemma NextAnswerIsSuccessor(roms: set<Rom>, st: SearchState)
    requires SearchStep(roms, st).1.Some?
    ensures var (st', found) := SearchStep(roms, st);
      match SearchStep(roms, st').1
      case Some(w) => IsSuccessor(roms, found.value, w)
      case None => forall s | s in roms && Less(found.value, s) :: exists z :: z in roms && ZeroFamily(z)
  {
    var (st', found) := SearchStep(roms, st);
    EverythingIsBelowTheRoot(roms);
    var r := found.value;
    WalkIsSuccessor(roms, r);
    if SearchStep(roms, st').1 == None {
      forall s | s in roms && Less(r, s)
        ensures exists z :: z in roms && ZeroFamily(z)
      {
        if st'.lastDiscrepancy == 0 {
          NothingGreater(roms, r, s);
        } else {
          assert ZeroFamily(Walk(roms, r, st'.lastDiscrepancy, []));
        }
      }
    }
  }

  // ----- searching for one family

  /** The state target_search leaves for the family byte `family`. */
  function Targeted(family: Path): SearchState
    requires |family| == 8
  {
    SearchState(family + seq(56, _ => false), 64, false)
  }

  lemma {:induction false} TargetKeepsFamily(roms: set<Rom>, last: Rom, path: Path, s: Rom)
    requires s in Below(roms, path) && |path| <= 8 && last[..8] == s[..8]
    ensures Walk(roms, last, 64, path)[..8] == s[..8]
    decreases 8 - |path|
  {
    var w := Walk(roms, last, 64, path);
    if |path| == 8 {
      assert w[..8] == path == s[..8];
    } else {
      var bit := Direction(roms, last, 64, path);
      assert s[..8][|path|] == last[..8][|path|];
      assert bit == s[|path|];
      BelowStep(roms, path, bit);
      TargetKeepsFamily(roms, last, path + [bit], s);
    }
  }

  /** Within the family the targeted walk descends to the least device, except
      that at a fork on the very last bit it takes the one. */
  lemma {:induction false} TargetIsLeast(roms: set<Rom>, last: Rom, path: Path, s: Rom)
    requires s in Below(roms, path) && |path| <= 64
    requires last[..8] == s[..8]
    requires forall i | 8 <= i < 64 :: !last[i]
    ensures var w := Walk(roms, last, 64, path);
      s == w || Less(w, s) || s[..63] == w[..63]
    decreases 64 - |path|
  {
    var w := Walk(roms, last, 64, path);
    if |path| == 64 {
      assert s == path;
    } else {
      var bit := Direction(roms, last, 64, path);
      DirectionIsPopulated(roms, last, 64, path);
      BelowStep(roms, path, bit);
      assert |path| < 8 ==> last[..8][|path|] == s[..8][|path|];
      if s[|path|] == bit {
        TargetIsLeast(roms, last, path + [bit], s);
      } else if |path| == 63 {
        assert w[..63] == path == s[..63];
      } else {
        assert w[|path|] == (path + [bit])[|path|] == bit;
        assert w[..|path|] == (path + [bit])[..|path|] == path == s[..|path|];
        assert SplitsAt(w, s, |path|);
      }
    }
  }

  /** target_search(f) then search: if any device has family f (not zero), a
      device of family f is found, and no device of that family lies before it
      unless it differs from it in the last bit only. */
  lemma TargetSearchFindsFamily(roms: set<Rom>, family: Path, s: Rom)
    requires |family| == 8 && s in roms && s[..8] == family && !ZeroFamily(s)
    ensures var found := SearchStep(roms, Targeted(family)).1;
      && found.Some?
      && found.value in roms
      && found.value[..8] == family
      && (s == found.value || Less(found.value, s) || s[..63] == found.value[..63])
  {
    EverythingIsBelowTheRoot(roms);
    var last := Targeted(family).rom;
    assert last[..8] == family;
    TargetKeepsFamily(roms, last, [], s);
    TargetIsLeast(roms, last, [], s);
    var w := Walk(roms, last, 64, []);
    var i :| 0 <= i < 8 && s[i];
    assert w[..8][i] == s[..8][i];
  }

  /** `s` is the least device of its family. */
  ghost predicate LeastOfFamily(roms: set<Rom>, s: Rom) {
    s in roms && forall r | r in roms && r[..8] == s[..8] :: r == s || Less(s, r)
  }

  /** Down to the last bit the targeted walk follows the least device. */
  lemma {:induction false} TargetFollowsLeast(roms: set<Rom>, last: Rom, s: Rom, k: nat)
    requires LeastOfFamily(roms, s) && last[..8] == s[..8] && (forall i | 8 <= i < 64 :: !last[i]) && k <= 63
    ensures Below(roms, s[..k]) != {} && Below(roms, s[..63]) != {}
    ensures Walk(roms, last, 64, s[..k]) == Walk(roms, last, 64, s[..63])
    decreases 63 - k
  {
    assert s in Below(roms, s[..k]) && s in Below(roms, s[..63]);
    if k < 63 {
      var path := s[..k];
      assert k < 8 ==> last[..8][k] == s[..8][k];
      if Forks(roms, path) && k >= 8 && s[k] {
        var r :| r in Below(roms, path) && !r[k];
        assert r[..k] == path && r[..8] == path[..8] == s[..8];
        assert SplitsAt(r, s, k);
        LessIsAsymmetric(r, s);
      }
      assert Direction(roms, last, 64, path) == s[k];
      assert path + [s[k]] == s[..k + 1];
      TargetFollowsLeast(roms, last, s, k + 1);
    }
  }

  lemma LastBit(roms: set<Rom>, last: Rom, s: Rom)
    requires s in roms && Below(roms, s[..63]) != {}
    ensures Walk(roms, last, 64, s[..63]) == if !s[63] && s[63 := true] in roms then s[63 := true] else s
  {
    var path := s[..63];
    var one := s[63 := true];
    assert s in Below(roms, path) && s == path + [s[63]] && one == path + [true];
    assert one[..63] == path;
    forall r | r in Below(roms, path)
      ensures r == path + [r[63]]
    {
      assert r == r[..63] + [r[63]];
    }
    var bit := Direction(roms, last, 64, path);
    DirectionIsPopulated(roms, last, 64, path);
    var w := Walk(roms, last, 64, path);
    assert w == Walk(roms, last, 64, path + [bit]) && path + [bit] <= w;
    assert w == path + [bit];
    assert !s[63] && one in roms ==> one in Below(roms, path) && one[63];
  }

  /** The search after target_search answers with the least device of the family
      exactly when that ends in a one or has no twin that does: the last bit
      counts as the last discrepancy. */
  lemma TargetFindsLeastExactlyWhen(roms: set<Rom>, family: Path, s: Rom)
    requires |family| == 8 && s[..8] == family && !ZeroFamily(s) && LeastOfFamily(roms, s)
    ensures SearchStep(roms, Targeted(family)).1 == Some(s) <==> s[63] || s[63 := true] !in roms
  {
    EverythingIsBelowTheRoot(roms);
    var last := Targeted(family).rom;
    assert last[..8] == family;
    assert s[..0] == [];
    TargetFollowsLeast(roms, last, s, 0);
    LastBit(roms, last, s);
    var w := Walk(roms, last, 64, []);
    var i :| 0 <= i < 8 && s[i];
    assert w[..8] == s[..8] && w[..8][i] == w[i] && s[..8][i] == s[i];
  }

  /** Two devices that differ in the last bit: the greater is found first. */
  lemma TargetCanMissLeast()
    ensures var family := [true] + seq(7, _ => false);
      var s: Rom := family + seq(56, _ => false);
      var roms := {s, s[63 := true]};
      LeastOfFamily(roms, s) && SearchStep(roms, Targeted(family)).1 == Some(s[63 := true])
  {
    var family := [true] + seq(7, _ => false);
    var s: Rom := family + seq(56, _ => false);
    var t := s[63 := true];
    var roms := {s, t};
    assert s[..63] == t[..63] && SplitsAt(s, t, 63);
    assert s[..8] == family;
    EverythingIsBelowTheRoot(roms);
    var last := Targeted(family).rom;
    assert last[..8] == family && s[..0] == [];
    TargetFollowsLeast(roms, last, s, 0);
    LastBit(roms, last, s);
    assert t[0];
  }
}
