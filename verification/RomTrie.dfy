/** 64-bit 1-Wire ROM numbers as bit strings, in the order in which a 1-Wire
    search reads them (least significant bit of byte 0 first), and the binary
    trie that a set of them forms. */
module RomTrie {

  const ROM_BITS: nat := 64

  /** A trie node: the bits that lead to it. */
  type Path = seq<bool>

  type Rom = r: Path | |r| == ROM_BITS witness seq(ROM_BITS, _ => false)

  /** Bit string order: at the first position where they differ, a has 0. */
  ghost predicate Less(a: Path, b: Path) {
    exists i: nat :: SplitsAt(a, b, i)
  }

  ghost predicate SplitsAt(a: Path, b: Path, i: nat) {
    i < |a| && i < |b| && a[..i] == b[..i] && !a[i] && b[i]
  }

  lemma SplitExcludesReverse(a: Path, b: Path, i: nat, j: nat)
    requires SplitsAt(a, b, i)
    ensures !SplitsAt(b, a, j)
  {
    if i < j && j < |a| && j < |b| {
      assert a[..j][i] != b[..j][i];
    } else if j < i {
      assert a[..i][j] == b[..i][j];
    }
  }

  lemma LessIsAsymmetric(a: Path, b: Path)
    requires Less(a, b)
    ensures !Less(b, a) && a != b
  {
    var i: nat :| SplitsAt(a, b, i);
    forall j: nat
      ensures !SplitsAt(b, a, j)
    {
      SplitExcludesReverse(a, b, i, j);
    }
  }

  /** The members of `roms` below the trie node reached by `path`. */
  function Below(roms: set<Rom>, path: Path): set<Rom> {
    set r | r in roms && path <= r
  }

  /** The devices that stay on after `bit` is written at position i. */
  function Agreeing(devices: set<Rom>, i: nat, bit: bool): set<Rom>
    requires i < ROM_BITS
  {
    set r | r in devices && r[i] == bit
  }

  lemma BelowStep(roms: set<Rom>, path: Path, bit: bool)
    requires |path| < ROM_BITS
    ensures Below(roms, path + [bit]) == Agreeing(Below(roms, path), |path|, bit)
  {
    forall r: Rom
      ensures path + [bit] <= r <==> path <= r && r[|path|] == bit
    {
      if path <= r && r[|path|] == bit {
        assert r[..|path| + 1] == path + [bit];
      }
      if path + [bit] <= r {
        assert r[|path|] == (path + [bit])[|path|];
        assert r[..|path|] == (path + [bit])[..|path|] == path;
      }
    }
  }

  /** What the 1-Wire bus answers at a node: the wired-AND of the next bits of
      the devices below it, and the wired-AND of the complements. */
  predicate AllOnes(roms: set<Rom>, path: Path)
    requires |path| < ROM_BITS
  {
    Ones(Below(roms, path), |path|)
  }

  predicate AllZeros(roms: set<Rom>, path: Path)
    requires |path| < ROM_BITS
  {
    Zeros(Below(roms, path), |path|)
  }

  predicate Ones(devices: set<Rom>, i: nat)
    requires i < ROM_BITS
  {
    forall r | r in devices :: r[i]
  }

  predicate Zeros(devices: set<Rom>, i: nat)
    requires i < ROM_BITS
  {
    forall r | r in devices :: !r[i]
  }

  /** Both children of the node are populated. */
  predicate Forks(roms: set<Rom>, path: Path)
    requires |path| < ROM_BITS
  {
    !AllOnes(roms, path) && !AllZeros(roms, path)
  }

  /** Position `i` (counted from 1) of `path` is a zero taken at a fork: some
      device shares the bits before it and has a one there. */
  predicate PendingOne(roms: set<Rom>, path: Path, i: nat)
    requires i <= |path| <= ROM_BITS
  {
    0 < i && !path[i - 1] && exists r | r in roms :: path[..i - 1] <= r && r[i - 1]
  }

  /** The deepest pending position at or above `n`, 0 if there is none. */
  function LastPending(roms: set<Rom>, path: Path, n: nat): (d: nat)
    requires n <= |path| <= ROM_BITS
    ensures d <= n
    ensures d > 0 ==> PendingOne(roms, path, d)
    ensures forall i | d < i <= n :: !PendingOne(roms, path, i)
  {
    if n == 0 then 0
    else if PendingOne(roms, path, n) then n
    else LastPending(roms, path, n - 1)
  }

  lemma LastPendingOfPrefix(roms: set<Rom>, path: Path, longer: Path, n: nat)
    requires n <= |path| && path <= longer && |longer| <= ROM_BITS
    ensures LastPending(roms, path, n) == LastPending(roms, longer, n)
  {
    if n > 0 {
      assert path[..n - 1] == longer[..n - 1];
      LastPendingOfPrefix(roms, path, longer, n - 1);
    }
  }

  /** `q` lists the members of `roms`, each once, in increasing order. */
  ghost predicate Enumerates(q: seq<Rom>, roms: set<Rom>) {
    && (forall i, j | 0 <= i < j < |q| :: Less(q[i], q[j]))
    && (forall r :: r in roms <==> r in q)
  }

  lemma WithoutLast(q: seq<Rom>, roms: set<Rom>)
    requires Enumerates(q, roms) && q != []
    ensures Enumerates(q[..|q| - 1], roms - {q[|q| - 1]})
  {
    var last := q[|q| - 1];
    var rest := q[..|q| - 1];
    forall i | 0 <= i < |rest|
      ensures rest[i] != last
    {
      LessIsAsymmetric(q[i], last);
    }
    forall r: Rom
      ensures r in roms - {last} <==> r in rest
    {
      if r in q && r != last {
        var i :| 0 <= i < |q| && q[i] == r;
        assert rest[i] == r;
      }
      assert r in rest ==> r in q;
    }
  }

  lemma {:induction false} EnumerationSize(q: seq<Rom>, roms: set<Rom>)
    requires Enumerates(q, roms)
    ensures |q| == |roms|
  {
    if q == [] {
      assert roms == {};
    } else {
      var last := q[|q| - 1];
      WithoutLast(q, roms);
      EnumerationSize(q[..|q| - 1], roms - {last});
    }
  }

  /** Consecutive entries of an enumeration have no member between them. */
  lemma NothingBetween(q: seq<Rom>, roms: set<Rom>, k: nat, r: Rom)
    requires Enumerates(q, roms) && 0 < k < |q| && r in roms && Less(q[k - 1], r)
    ensures r == q[k] || Less(q[k], r)
  {
    var i :| 0 <= i < |q| && q[i] == r;
    if i < k - 1 {
      assert Less(q[i], q[k - 1]);
      LessIsAsymmetric(q[i], q[k - 1]);
    } else if i == k - 1 {
      LessIsAsymmetric(q[k - 1], r);
    }
  }
}
