/** What every run of the address pool keeps when its callers allocate the root
    into an empty pool and everything else on a free port of a live hub. */
module AddressDiscipline {
  import opened AddressPool

  // ----- the invariant

  ghost predicate DistinctAddresses(e: Entries) {
    forall i: nat, j: nat | Live(e, i) && Live(e, j) && e[i].devAddress == e[j].devAddress :: i == j
  }

  ghost predicate DistinctHubs(e: Entries) {
    forall i: nat, j: nat | LiveHub(e, i) && LiveHub(e, j) && Number(e, i) == Number(e, j) :: i == j
  }

  /** Entry i is a root, or hangs off a hub that is still there. */
  ghost predicate Attached(e: Entries, i: nat)
    requires i < |e|
  {
    || e[i].devAddress == ROOT_HUB
    || e[i].devAddress == ROOT_DEVICE
    || exists k: nat :: LiveHub(e, k) && Number(e, k) == Parent(e, i)
  }

  ghost predicate HasRootHub(e: Entries) {
    exists i: nat :: Live(e, i) && e[i].devAddress == ROOT_HUB
  }

  ghost predicate AllAttached(e: Entries) {
    forall i: nat | Live(e, i) :: e[i].devAddress < 128 && Attached(e, i)
  }

  ghost predicate NumbersUpTo(e: Entries, counter: nat) {
    forall i: nat | LiveHub(e, i) :: 1 <= Number(e, i) <= counter
  }

  /** Entry 0 is reserved and an empty entry is in its initial state. */
  ghost predicate RestInitial(e: Entries) {
    && |e| > 0 && e[0].devAddress == 0
    && forall i: nat | 0 < i < |e| && e[i].devAddress == 0 :: e[i] == INITIAL
  }

  ghost predicate WellFormed(p: Pool) {
    var e := p.entries;
    && RestInitial(e) && Tree(e)
    && DistinctAddresses(e) && DistinctHubs(e) && AllAttached(e)
    && NumbersUpTo(e, p.hubCounter) && p.hubCounter <= 7
    && (!HasRootHub(e) ==> p.hubCounter == 0)
  }

  lemma FreshPoolIsWellFormed(maxDevices: nat)
    requires maxDevices > 0
    ensures WellFormed(Pool(seq(maxDevices, _ => INITIAL), 0))
  {
  }

  // ----- the callers' discipline

  ghost predicate PortUnused(e: Entries, parent: nat, port: nat) {
    forall i: nat | Live(e, i) && !LiveHub(e, i) && Parent(e, i) == BmAddress(parent) :: Number(e, i) != port
  }

  ghost predicate IsLiveHubAddress(e: Entries, address: nat) {
    exists k: nat :: LiveHub(e, k) && e[k].devAddress == address
  }

  ghost predicate Disciplined(p: Pool, parent: nat, isHub: bool, port: nat) {
    if parent == 0 then forall i: nat :: !Live(p.entries, i)
    else IsLiveHubAddress(p.entries, parent) && (isHub || PortUnused(p.entries, parent, port))
  }

  // ----- allocation

  /** The address AllocAddress hands out when it does not refuse. */
  function NewAddress(p: Pool, parent: nat, isHub: bool, port: nat): nat {
    if parent == 0 then (if isHub then ROOT_HUB else ROOT_DEVICE)
    else Pack(isHub, BmAddress(parent), if isHub then p.hubCounter + 1 else port)
  }

  /** A hub number above the counter, or an unused port, gives an address no
      live entry has. */
  lemma NewAddressIsFresh(p: Pool, parent: nat, isHub: bool, port: nat)
    requires WellFormed(p) && Disciplined(p, parent, isHub, port) && port <= 7 && (isHub ==> p.hubCounter < 7)
    ensures var a := NewAddress(p, parent, isHub, port);
      && 0 < a < 128 && BmHub(a) == isHub
      && (parent != 0 ==> BmParent(a) == BmAddress(parent) && 1 <= BmParent(a) <= p.hubCounter)
      && (isHub ==> BmAddress(a) == p.hubCounter + 1 && BmParent(a) < BmAddress(a))
      && forall i: nat | Live(p.entries, i) :: p.entries[i].devAddress != a
  {
    var e := p.entries;
    if parent == 0 {
      if isHub {
        assert !HasRootHub(e);
      }
    } else {
      var k: nat :| LiveHub(e, k) && e[k].devAddress == parent;
      assert 1 <= Number(e, k) <= p.hubCounter;
      PackFields(isHub, BmAddress(parent), if isHub then p.hubCounter + 1 else port);
    }
  }

  lemma AllocKeeps(p: Pool, parent: nat, isHub: bool, port: nat)
    requires WellFormed(p) && Disciplined(p, parent, isHub, port)
    ensures var (p', a) := Alloc(p, parent, isHub, port);
      && WellFormed(p')
      && (a == 0 ==> p' == p)
      && (a == 0 <==> port > 7 || (isHub && p.hubCounter == 7) || forall i: nat | 0 < i < |p.entries| :: Live(p.entries, i))
  {
    hide BmAddress, BmParent, BmHub, Pack;
    var e := p.entries;
    var i := IndexOf(e, 0, 1);
    assert parent < 128;
    if port <= 7 && !(isHub && p.hubCounter == 7) && i != 0 {
      NewAddressIsFresh(p, parent, isHub, port);
      var a := NewAddress(p, parent, isHub, port);
      var e' := e[i := e[i].(devAddress := a)];
      Grown(p, i, parent, isHub, port, a);
      assert Alloc(p, parent, isHub, port) == (Pool(e', p.hubCounter + if isHub then 1 else 0), a);
      assert !Live(e, i);
    }
  }

  /** Writing a fresh address into an empty entry keeps the forest. */
  lemma Grown(p: Pool, i: nat, parent: nat, isHub: bool, port: nat, a: nat)
    requires WellFormed(p) && Disciplined(p, parent, isHub, port)
    requires 0 < i < |p.entries| && p.entries[i].devAddress == 0
    requires 0 < a < 128 && BmHub(a) == isHub && (isHub ==> p.hubCounter < 7)
    requires parent != 0 ==> BmParent(a) == BmAddress(parent)
    requires parent == 0 ==> a == if isHub then ROOT_HUB else ROOT_DEVICE
    requires isHub ==> BmAddress(a) == p.hubCounter + 1 && BmParent(a) < BmAddress(a)
    requires forall i: nat | Live(p.entries, i) :: p.entries[i].devAddress != a
    ensures WellFormed(Pool(p.entries[i := p.entries[i].(devAddress := a)], p.hubCounter + if isHub then 1 else 0))
  {
    hide BmAddress, BmParent, BmHub, AllAttached, DistinctAddresses, DistinctHubs;
    var e := p.entries;
    var e' := e[i := e[i].(devAddress := a)];
    GrownAttached(p, i, parent, e');
    GrownDistinct(p, i, a, e');
    forall j: nat | LiveHub(e', j)
      ensures Parent(e', j) < Number(e', j) && 1 <= Number(e', j) <= p.hubCounter + if isHub then 1 else 0
    {
      assert j != i ==> LiveHub(e, j) && Number(e, j) == Number(e', j) && Parent(e, j) == Parent(e', j);
    }
    if r: nat :| Live(e, r) && e[r].devAddress == ROOT_HUB {
      assert Live(e', r) && e'[r].devAddress == ROOT_HUB;
    } else {
      NoHubWithoutRoot(p);
      assert Live(e', i) && (isHub ==> e'[i].devAddress == ROOT_HUB);
    }
  }

  lemma NoHubWithoutRoot(p: Pool)
    requires WellFormed(p) && !HasRootHub(p.entries)
    ensures forall k: nat :: !LiveHub(p.entries, k)
  {
  }

  lemma GrownAttached(p: Pool, i: nat, parent: nat, e': Entries)
    requires WellFormed(p) && 0 < i < |p.entries| == |e'|
    requires !Live(p.entries, i)
    requires forall j: nat | j != i && j < |e'| :: e'[j] == p.entries[j]
    requires e'[i].devAddress < 128
    requires if parent == 0 then e'[i].devAddress == ROOT_HUB || e'[i].devAddress == ROOT_DEVICE
             else IsLiveHubAddress(p.entries, parent) && Parent(e', i) == BmAddress(parent)
    ensures AllAttached(e')
  {
    hide BmAddress, BmParent, BmHub;
    var e := p.entries;
    forall j: nat | Live(e', j)
      ensures e'[j].devAddress < 128 && Attached(e', j)
    {
      if j != i && e[j].devAddress != ROOT_HUB && e[j].devAddress != ROOT_DEVICE {
        assert Live(e, j);
        var k: nat :| LiveHub(e, k) && Number(e, k) == Parent(e, j);
        assert LiveHub(e', k) && Number(e', k) == Parent(e', j);
      }
      if j == i && parent != 0 {
        var k: nat :| LiveHub(e, k) && e[k].devAddress == parent;
        assert LiveHub(e', k) && Number(e', k) == Parent(e', i);
      }
    }
  }

  lemma GrownDistinct(p: Pool, i: nat, a: nat, e': Entries)
    requires WellFormed(p) && 0 < i < |p.entries| == |e'|
    requires forall j: nat | j != i && j < |e'| :: e'[j] == p.entries[j]
    requires e'[i].devAddress == a
    requires forall j: nat | Live(p.entries, j) :: p.entries[j].devAddress != a
    requires BmHub(a) ==> BmAddress(a) > p.hubCounter
    ensures DistinctAddresses(e') && DistinctHubs(e')
  {
    hide BmAddress, BmParent, BmHub, AllAttached, Tree;
    var e := p.entries;
    forall j: nat, k: nat | Live(e', j) && Live(e', k) && e'[j].devAddress == e'[k].devAddress
      ensures j == k
    {
      assert j != i ==> Live(e, j);
      assert k != i ==> Live(e, k);
    }
    forall j: nat, k: nat | LiveHub(e', j) && LiveHub(e', k) && Number(e', j) == Number(e', k)
      ensures j == k
    {
      assert j != i ==> LiveHub(e, j) && Number(e, j) <= p.hubCounter;
      assert k != i ==> LiveHub(e, k) && Number(e, k) <= p.hubCounter;
    }
  }

  /** On a live hub, the pool stays free of duplicates exactly when a device's
      port was unused: AllocAddress does not look. */
  lemma DuplicateExactlyWhenPortUsed(p: Pool, parent: nat, port: nat)
    requires WellFormed(p) && IsLiveHubAddress(p.entries, parent) && port <= 7 && IndexOf(p.entries, 0, 1) != 0
    ensures DistinctAddresses(Alloc(p, parent, false, port).0.entries) <==> PortUnused(p.entries, parent, port)
  {
    var e := p.entries;
    var k: nat :| LiveHub(e, k) && e[k].devAddress == parent;
    if PortUnused(e, parent, port) {
      AllocKeeps(p, parent, false, port);
    } else {
      var j: nat :| Live(e, j) && !LiveHub(e, j) && Parent(e, j) == BmAddress(parent) && Number(e, j) == port;
      var i := IndexOf(e, 0, 1);
      var (p', a) := Alloc(p, parent, false, port);
      PackFields(false, BmAddress(parent), port);
      FieldsDetermine(a, e[j].devAddress);
      assert Live(p'.entries, i) && Live(p'.entries, j) && i != j;
    }
  }

  /** A second root hub or root device doubles an address exactly when the pool
      holds one: AllocAddress does not look for it either. */
  lemma DuplicateExactlyWhenRootTaken(p: Pool, isHub: bool, port: nat)
    requires WellFormed(p) && port <= 7 && IndexOf(p.entries, 0, 1) != 0 && (isHub ==> p.hubCounter < 7)
    ensures DistinctAddresses(Alloc(p, 0, isHub, port).0.entries)
       <==> forall i: nat | Live(p.entries, i) :: p.entries[i].devAddress != if isHub then ROOT_HUB else ROOT_DEVICE
  {
    hide BmAddress, BmParent, BmHub;
    var e := p.entries;
    var i := IndexOf(e, 0, 1);
    var e' := Alloc(p, 0, isHub, port).0.entries;
    assert Live(e', i) && !Live(e, i);
    assert forall j: nat | j != i && j < |e| :: e'[j] == e[j] && (Live(e, j) <==> Live(e', j));
  }

  // ----- the hub counter

  ghost predicate FreesHub(e: Entries, freed: set<nat>, n: nat) {
    exists k | k in freed :: LiveHub(e, k) && Number(e, k) == n
  }

  /** The hub counter only drops over numbers that were just freed, and it drops
      when the number it holds is freed. */
  ghost predicate CounterAfter(e: Entries, freed: set<nat>, before: nat, after: nat) {
    && after <= before
    && (forall n: nat | after < n <= before :: FreesHub(e, freed, n))
    && (FreesHub(e, freed, before) && before > 0 ==> after < before)
  }

  /** The order holds the numbers of exactly the hubs in `freed`, each once. */
  ghost predicate Lists(order: seq<nat>, e: Entries, freed: set<nat>) {
    && (forall n: nat :: n in order <==> FreesHub(e, freed, n))
    && (forall a, b | 0 <= a < b < |order| :: order[a] != order[b])
  }

  ghost function AllUnder(e: Entries, h: nat): set<nat>
    requires Tree(e)
  {
    set j: nat | j < |e| && Under(e, j, h)
  }

  lemma {:induction false} NoneUnderChildless(e: Entries, h: nat, j: nat)
    requires Tree(e) && forall k: nat | Live(e, k) :: Parent(e, k) != h
    ensures !Under(e, j, h)
    decreases if j < |e| then Parent(e, j) else 0
  {
    hide BmAddress, BmParent, BmHub;
    if Live(e, j) {
      forall k: nat | LiveHub(e, k) && Number(e, k) == Parent(e, j) && Parent(e, k) < Parent(e, j)
        ensures !Under(e, k, h)
      {
        NoneUnderChildless(e, h, k);
      }
    }
  }

  lemma {:induction false} ParentAboveHub(e: Entries, j: nat, h: nat)
    requires Tree(e) && Under(e, j, h)
    ensures Parent(e, j) >= h
    decreases Parent(e, j)
  {
    hide BmAddress, BmParent, BmHub;
    if Parent(e, j) != h {
      var k :| LiveHub(e, k) && Number(e, k) == Parent(e, j) && Parent(e, k) < Parent(e, j) && Under(e, k, h);
      ParentAboveHub(e, k, h);
    }
  }

  lemma JoinLists(e: Entries, a: seq<nat>, first: set<nat>, b: seq<nat>, second: set<nat>)
    requires DistinctHubs(e) && Lists(a, e, first) && Lists(b, Cleared(e, first), second)
    ensures Lists(a + b, e, first + second)
  {
    hide BmAddress, BmParent, BmHub, DistinctHubs;
    EmptyEntry();
    var c := Cleared(e, first);
    forall n: nat
      ensures FreesHub(c, second, n) ==> FreesHub(e, first + second, n) && !FreesHub(e, first, n)
      ensures FreesHub(e, first, n) ==> FreesHub(e, first + second, n)
      ensures FreesHub(e, first + second, n) ==> FreesHub(e, first, n) || FreesHub(c, second, n)
    {
      if k :| k in second && LiveHub(c, k) && Number(c, k) == n {
        assert k !in first && LiveHub(e, k) && Number(e, k) == n;
        OnlyHub(e, k);
      }
      if k :| k in second && k !in first && LiveHub(e, k) && Number(e, k) == n {
        assert LiveHub(c, k) && Number(c, k) == n;
      }
    }
    assert forall i | 0 <= i < |a| :: a[i] in a;
    assert forall i | 0 <= i < |b| :: b[i] in b && b[i] !in a;
  }

  lemma ClearedDistinctHubs(e: Entries, freed: set<nat>)
    requires DistinctHubs(e)
    ensures DistinctHubs(Cleared(e, freed))
  {
    hide BmAddress, BmParent, BmHub;
    EmptyEntry();
    var c := Cleared(e, freed);
    assert forall i: nat | LiveHub(c, i) :: LiveHub(e, i) && Number(e, i) == Number(c, i);
  }

  lemma OnlyHub(e: Entries, k: nat)
    requires DistinctHubs(e) && LiveHub(e, k)
    ensures forall j: nat | LiveHub(e, j) && Number(e, j) == Number(e, k) :: j == k
  {
  }

  /** Freeing entry i frees every hub of its subtree once, and in HubOrder. */
  lemma {:induction false} HubOrderLists(e: Entries, i: nat)
    requires Tree(e) && DistinctHubs(e) && 0 < i < |e|
    ensures Lists(HubOrder(e, i), e, Subtree(e, i))
    decreases if LiveHub(e, i) then 8 - Number(e, i) else 0, |e| + 1
  {
    hide BmAddress, BmParent, BmHub, DistinctHubs, ChildOrder, Under, Tree;
    EmptyEntry();
    if LiveHub(e, i) {
      HubNumber(e, i);
      var h := Number(e, i);
      ChildOrderLists(e, h, 1);
      OnlyHub(e, i);
      if Under(e, i, h) {
        ParentAboveHub(e, i, h);
      }
      assert i !in AllUnder(e, h) && !FreesHub(e, AllUnder(e, h), h);
      assert Subtree(e, i) == AllUnder(e, h) + {i};
      assert forall n: nat :: FreesHub(e, Subtree(e, i), n) <==> FreesHub(e, AllUnder(e, h), n) || n == h;
    }
  }

  lemma {:induction false} ChildOrderLists(e: Entries, h: nat, from: nat)
    requires Tree(e) && DistinctHubs(e) && 0 < h < 8 && 0 < from <= |e|
    requires forall j: nat | Live(e, j) && j < from :: Parent(e, j) != h
    ensures Lists(ChildOrder(e, h, from), e, AllUnder(e, h))
    decreases 8 - h, |e| - from
  {
    hide BmAddress, BmParent, BmHub, DistinctHubs, HubOrder, Under, Tree;
    EmptyEntry();
    if from == |e| {
      forall j: nat
        ensures !Under(e, j, h)
      {
        NoneUnderChildless(e, h, j);
      }
    } else if Parent(e, from) == h {
      var sub := Subtree(e, from);
      var c := Cleared(e, sub);
      ClearedTree(e, sub);
      ClearedDistinctHubs(e, sub);
      ChildUnder(e, h, from);
      HubOrderLists(e, from);
      assert from in sub && c[from] == INITIAL;
      assert forall j: nat | Live(c, j) :: Live(e, j) && Parent(c, j) == Parent(e, j);
      ChildOrderLists(c, h, from + 1);
      JoinLists(e, HubOrder(e, from), sub, ChildOrder(c, h, from + 1), AllUnder(c, h));
    } else {
      ChildOrderLists(e, h, from + 1);
    }
  }

  /** What hangs off h is one child's subtree and what is left without it. */
  lemma ChildUnder(e: Entries, h: nat, i: nat)
    requires Tree(e) && h > 0 && 0 < i < |e| && Parent(e, i) == h && Tree(Cleared(e, Subtree(e, i)))
    ensures AllUnder(e, h) == Subtree(e, i) + AllUnder(Cleared(e, Subtree(e, i)), h)
    ensures LiveHub(e, i) ==> Number(e, i) > h
  {
    hide BmAddress, BmParent, BmHub, Cleared;
    EmptyEntry();
    SubtreeIsClosed(e, i);
    assert Under(e, i, h);
    forall j: nat
      ensures j in Subtree(e, i) ==> Under(e, j, h)
      ensures Under(Cleared(e, Subtree(e, i)), j, h) <==> j !in Subtree(e, i) && Under(e, j, h)
    {
      UnderAfterClearing(e, Subtree(e, i), j, h);
      if j in Subtree(e, i) && j != i {
        UnderIsTransitive(e, j, i, h);
      }
    }
  }

  lemma {:induction false} DropsOverListed(counter: nat, order: seq<nat>)
    ensures var after := Drops(counter, order);
      && after <= counter
      && (forall n | after < n <= counter :: n in order)
      && (counter in order && counter > 0 ==> after < counter)
    decreases |order|
  {
    if order != [] {
      assert order == [order[0]] + order[1..];
      DropsOverListed(if order[0] == counter > 0 then counter - 1 else counter, order[1..]);
    }
  }

  lemma CounterOfFreed(e: Entries, i: nat, counter: nat)
    requires Tree(e) && DistinctHubs(e) && 0 < i < |e|
    ensures CounterAfter(e, Subtree(e, i), counter, Drops(counter, HubOrder(e, i)))
  {
    hide BmAddress, BmParent, BmHub, DistinctHubs, HubOrder, Subtree, FreesHub, Drops;
    HubOrderLists(e, i);
    DropsOverListed(counter, HubOrder(e, i));
  }

  /** The numbers above g come in falling order. */
  ghost predicate FallsAbove(order: seq<nat>, g: nat) {
    order != [] ==>
      && (order[0] > g ==> forall n | n in order[1..] && n > g :: order[0] > n)
      && FallsAbove(order[1..], g)
  }

  /** Numbers that come once each bring the counter down to g exactly when all
      above g are among them and come in falling order. */
  lemma {:induction false} DropsToExactlyWhen(counter: nat, order: seq<nat>, g: nat)
    requires g <= counter && g !in order && forall n | n in order :: n <= counter
    requires forall a, b | 0 <= a < b < |order| :: order[a] != order[b]
    ensures Drops(counter, order) == g <==> (forall n | g < n <= counter :: n in order) && FallsAbove(order, g)
    decreases |order|
  {
    if order == [] {
      assert g < counter ==> counter !in order;
    } else {
      var x, rest := order[0], order[1..];
      assert x in order && order == [x] + rest;
      assert forall n: nat :: n in order <==> n == x || n in rest;
      assert forall i | 0 <= i < |rest| :: rest[i] == order[i + 1];
      assert x !in rest;
      if x == counter {
        DropsToExactlyWhen(counter - 1, rest, g);
        assert (forall n | g < n <= counter :: n in order) <==> forall n | g < n <= counter - 1 :: n in rest;
      } else {
        DropsToExactlyWhen(counter, rest, g);
        if x > g {
          assert !(forall n | g < n <= counter :: n in rest);
          assert counter in order ==> counter in rest;
        } else {
          assert (forall n | g < n <= counter :: n in order) <==> forall n | g < n <= counter :: n in rest;
        }
      }
    }
  }

  /** The greatest number of a live hub, 0 if there is none. */
  ghost predicate IsGreatest(e: Entries, g: nat) {
    && (g == 0 || exists k: nat :: LiveHub(e, k) && Number(e, k) == g)
    && forall k: nat | LiveHub(e, k) :: Number(e, k) <= g
  }

  /** A free leaves the counter at the greatest number g of the hubs that remain
      exactly when all numbers above g up to the counter were hubs in the subtree,
      freed in falling order: where one is missing, or a lower one goes first,
      the counter stops above g. */
  lemma CounterIsGreatestExactlyWhen(p: Pool, address: nat, p': Pool, g: nat)
    requires WellFormed(p) && Freed(p, address, p') && IsGreatest(p'.entries, g)
    requires address != ROOT_HUB && IndexOf(p.entries, address, 1) != 0
    ensures p'.hubCounter == g <==>
      var order := HubOrder(p.entries, IndexOf(p.entries, address, 1));
      (forall n | g < n <= p.hubCounter :: n in order) && FallsAbove(order, g)
  {
    hide BmAddress, BmParent, BmHub, HubOrder, Drops, Under, Tree;
    var e := p.entries;
    var i := IndexOf(e, address, 1);
    var order := HubOrder(e, i);
    HubOrderLists(e, i);
    FreeKeeps(p, address, p');
    CounterOfFreed(e, i, p.hubCounter);
    FreedNumbers(p, Subtree(e, i), g);
    DropsToExactlyWhen(p.hubCounter, order, g);
  }

  lemma FreedNumbers(p: Pool, freed: set<nat>, g: nat)
    requires WellFormed(p) && IsGreatest(Cleared(p.entries, freed), g)
    ensures !FreesHub(p.entries, freed, g)
    ensures forall n: nat | FreesHub(p.entries, freed, n) :: n <= p.hubCounter
    ensures g <= p.hubCounter
  {
    hide BmAddress, BmParent, BmHub, Tree, DistinctHubs, DistinctAddresses, AllAttached;
    EmptyEntry();
    var e := p.entries;
    var c := Cleared(e, freed);
    if m: nat :| LiveHub(c, m) && Number(c, m) == g {
      assert m !in freed && LiveHub(e, m) && Number(e, m) == g;
      OnlyHub(e, m);
    }
  }

  /** A hub that nothing hangs off goes alone. */
  lemma ChildlessGoesAlone(e: Entries, i: nat)
    requires Tree(e) && LiveHub(e, i) && forall k: nat | Live(e, k) :: Parent(e, k) != Number(e, i)
    ensures Subtree(e, i) == {i} && HubOrder(e, i) == [Number(e, i)]
  {
    hide BmAddress, BmParent, BmHub, Under, Tree, ChildOrder;
    EmptyEntry();
    HubNumber(e, i);
    var h := Number(e, i);
    forall j: nat
      ensures !Under(e, j, h)
    {
      NoneUnderChildless(e, h, j);
    }
    SkipToChild(e, h, 1, |e|);
    ChildOrderFrom(e, h, |e|);
  }

  lemma TwoElements(order: seq<nat>)
    requires |order| > 1 && forall a, b | 0 <= a < b < |order| :: order[a] != order[b]
    ensures exists m, n :: m in order && n in order && m != n
  {
    assert order[0] in order && order[1] in order && order[0] != order[1];
  }

  lemma OnlyElement(order: seq<nat>, n: nat)
    requires n in order && forall m | m in order :: m == n
    requires forall a, b | 0 <= a < b < |order| :: order[a] != order[b]
    ensures order == [n]
  {
    if |order| > 1 {
      TwoElements(order);
      assert false;
    }
  }

  /** A hub with no hub under it that holds the counter: exactly when the number
      below is a live hub's, or 0. */
  lemma LeafLeavesGreatestExactlyWhen(p: Pool, address: nat, p': Pool, g: nat)
    requires WellFormed(p) && Freed(p, address, p') && IsGreatest(p'.entries, g)
    requires var i := IndexOf(p.entries, address, 1);
      && address != ROOT_HUB && LiveHub(p.entries, i) && Number(p.entries, i) == p.hubCounter
      && forall k: nat | LiveHub(p.entries, k) :: !Under(p.entries, k, p.hubCounter)
    ensures p'.hubCounter == g <==>
      p.hubCounter == 1 || exists k: nat :: LiveHub(p.entries, k) && Number(p.entries, k) == p.hubCounter - 1
  {
    hide BmAddress, BmParent, BmHub, HubOrder, Drops, Under, Tree, DistinctHubs, DistinctAddresses, AllAttached;
    EmptyEntry();
    var e := p.entries;
    var i := IndexOf(e, address, 1);
    var freed := Subtree(e, i);
    var c := Cleared(e, freed);
    OnlyHub(e, i);
    HubOrderLists(e, i);
    var order := HubOrder(e, i);
    assert forall n: nat :: FreesHub(e, freed, n) <==> n == p.hubCounter;
    assert p.hubCounter in order;
    OnlyElement(order, p.hubCounter);
    CounterIsGreatestExactlyWhen(p, address, p', g);
    FreedNumbers(p, freed, g);
    forall k: nat | LiveHub(e, k) && k != i
      ensures LiveHub(c, k) && Number(c, k) == Number(e, k)
    {
    }
    assert forall k: nat | LiveHub(c, k) :: LiveHub(e, k) && Number(c, k) == Number(e, k);
    assert g < p.hubCounter && FallsAbove(order, g);
    assert p.hubCounter - 1 !in order;
    assert (forall n | g < n <= p.hubCounter :: n in order) <==> g == p.hubCounter - 1;
  }

  /** A root hangs off nothing. */
  lemma RootNotUnder(e: Entries, r: nat, h: nat)
    requires Tree(e) && Live(e, r) && Parent(e, r) == 0 && h > 0
    ensures !Under(e, r, h)
  {
  }

  lemma ThinnedDistinct(e: Entries, e': Entries)
    requires |e'| == |e| && DistinctAddresses(e) && DistinctHubs(e) && Tree(e)
    requires forall i: nat | Live(e', i) :: Live(e, i) && e'[i].devAddress == e[i].devAddress
    ensures DistinctAddresses(e') && DistinctHubs(e') && Tree(e')
  {
    hide BmAddress, BmParent, BmHub;
    forall i: nat | LiveHub(e', i)
      ensures LiveHub(e, i) && Number(e', i) == Number(e, i) && Parent(e', i) == Parent(e, i)
    {
      assert Live(e', i);
    }
  }

  lemma ThinnedAttached(e: Entries, e': Entries)
    requires |e'| == |e| && AllAttached(e)
    requires forall i: nat | Live(e', i) :: Live(e, i) && e'[i].devAddress == e[i].devAddress
    requires forall i: nat, k: nat | Live(e', i) && LiveHub(e, k) && Parent(e, i) == Number(e, k) :: Live(e', k)
    ensures AllAttached(e')
  {
    hide BmAddress, BmParent, BmHub;
    forall i: nat | Live(e', i)
      ensures e'[i].devAddress < 128 && Attached(e', i)
    {
      assert Live(e, i);
      if e[i].devAddress != ROOT_HUB && e[i].devAddress != ROOT_DEVICE {
        var k: nat :| LiveHub(e, k) && Number(e, k) == Parent(e, i);
        assert Live(e', k);
        assert LiveHub(e', k) && Number(e', k) == Parent(e', i);
      }
    }
  }

  lemma ThinnedKeeps(p: Pool, p': Pool)
    requires WellFormed(p) && RestInitial(p'.entries) && |p'.entries| == |p.entries|
    requires forall i: nat | Live(p'.entries, i) :: Live(p.entries, i) && p'.entries[i].devAddress == p.entries[i].devAddress
    requires forall i: nat, k: nat | Live(p'.entries, i) && LiveHub(p.entries, k) && Parent(p.entries, i) == Number(p.entries, k) ::
               Live(p'.entries, k)
    requires forall r: nat | Live(p.entries, r) && p.entries[r].devAddress == ROOT_HUB :: Live(p'.entries, r)
    requires NumbersUpTo(p'.entries, p'.hubCounter) && p'.hubCounter <= p.hubCounter
    ensures WellFormed(p')
  {
    ThinnedDistinct(p.entries, p'.entries);
    ThinnedAttached(p.entries, p'.entries);
    hide Live, LiveHub, Tree, DistinctAddresses, DistinctHubs, AllAttached, NumbersUpTo, RestInitial;
    if r: nat :| Live(p.entries, r) && p.entries[r].devAddress == ROOT_HUB {
      assert Live(p'.entries, r);
    }
  }

  /** Freeing a closed set keeps the invariant, as long as the root hub is not
      in it and the counter only skips freed numbers. */
  lemma ClearingKeeps(p: Pool, freed: set<nat>, after: nat)
    requires WellFormed(p) && ClosedDown(p.entries, freed) && CounterAfter(p.entries, freed, p.hubCounter, after)
    requires forall r: nat | Live(p.entries, r) && p.entries[r].devAddress == ROOT_HUB :: r !in freed
    requires 0 !in freed
    ensures WellFormed(Pool(Cleared(p.entries, freed), after))
  {
    hide BmAddress, BmParent, BmHub, Tree, AllAttached, DistinctAddresses;
    EmptyEntry();
    var e := p.entries;
    var c := Cleared(e, freed);
    assert forall j: nat :: Live(c, j) <==> Live(e, j) && j !in freed;
    assert forall j: nat | j < |e| && j !in freed :: c[j] == e[j];
    forall i: nat | LiveHub(c, i)
      ensures 1 <= Number(c, i) <= after
    {
      assert LiveHub(e, i) && Number(c, i) == Number(e, i) && !FreesHub(e, freed, Number(e, i));
    }
    ThinnedKeeps(p, Pool(c, after));
  }

  lemma FreeKeeps(p: Pool, address: nat, p': Pool)
    requires WellFormed(p) && Freed(p, address, p')
    ensures WellFormed(p')
  {
    hide BmAddress, BmParent, BmHub, CounterAfter;
    EmptyEntry();
    RootFields();
    var e := p.entries;
    var i := IndexOf(e, address, 1);
    if address != ROOT_HUB && i != 0 {
      SubtreeIsClosed(e, i);
      forall r: nat | Live(e, r) && e[r].devAddress == ROOT_HUB
        ensures r !in Subtree(e, i)
      {
        if LiveHub(e, i) {
          RootNotUnder(e, r, Number(e, i));
        }
      }
      assert forall j: nat | Live(e, j) && LiveHub(e, i) :: Under(e, j, Number(e, i)) ==> j != 0;
      CounterOfFreed(e, i, p.hubCounter);
      ClearingKeeps(p, Subtree(e, i), p'.hubCounter);
    }
  }

  lemma RootFields()
    ensures BmHub(ROOT_HUB) && BmParent(ROOT_HUB) == 0 && BmAddress(ROOT_HUB) == 1
  {
  }

  /** Address 0 stands for "no device": freeing it changes nothing. */
  lemma FreeZeroChangesNothing(p: Pool, p': Pool)
    requires WellFormed(p) && Freed(p, 0, p')
    ensures p' == p
  {
    hide BmAddress, BmParent, BmHub;
    EmptyEntry();
    var e := p.entries;
    var i := IndexOf(e, 0, 1);
    if i != 0 {
      assert !Live(e, i);
      assert Subtree(e, i) == {i};
      assert Cleared(e, {i}) == e;
      assert HubOrder(e, i) == [];
    }
  }

  /** Only the freed address and what hangs off it disappear. */
  lemma FreeIsLocal(p: Pool, address: nat, p': Pool, j: nat)
    requires WellFormed(p) && Freed(p, address, p') && Live(p.entries, j)
    ensures var i := IndexOf(p.entries, address, 1);
      p'.entries[j] ==
        if j == i || (LiveHub(p.entries, i) && Under(p.entries, j, Number(p.entries, i))) || address == ROOT_HUB
        then INITIAL else p.entries[j]
  {
    hide BmAddress, BmParent, BmHub, CounterAfter, Under;
  }

  // ----- allocating and then freeing

  /** Freeing an address just handed out restores the pool exactly, hub counter
      included. */
  lemma AllocThenFreeRestores(p: Pool, parent: nat, isHub: bool, port: nat, p'': Pool)
    requires WellFormed(p) && Disciplined(p, parent, isHub, port)
    requires var (p', a) := Alloc(p, parent, isHub, port); a != 0 && Tree(p'.entries) && Freed(p', a, p'')
    ensures p'' == p
  {
    hide BmAddress, BmParent, BmHub, Pack, Tree, AllAttached;
    RootFields();
    var e := p.entries;
    var (p', a) := Alloc(p, parent, isHub, port);
    var i := IndexOf(e, 0, 1);
    NewAddressIsFresh(p, parent, isHub, port);
    assert p'.entries[i].devAddress == a;
    assert forall j: nat | 0 < j < |e| && j != i :: p'.entries[j] == e[j] && (Live(e, j) || e[j].devAddress == 0);
    assert IndexOf(p'.entries, a, 1) == i;
    if a == ROOT_HUB {
      RootComesFirst(p, parent, isHub, port);
      assert forall j: nat | 0 < j < |e| :: !Live(e, j);
      assert p''.entries == e;
    } else {
      OnlyItself(p, parent, isHub, port);
      AllocKeeps(p, parent, isHub, port);
      CounterOfFreed(p'.entries, i, p'.hubCounter);
      RemovesTheNewEntry(p, parent, isHub, port, p'');
    }
  }

  lemma RemovesTheNewEntry(p: Pool, parent: nat, isHub: bool, port: nat, p'': Pool)
    requires WellFormed(p) && Disciplined(p, parent, isHub, port)
    requires var (p', a) := Alloc(p, parent, isHub, port);
      var i := IndexOf(p.entries, 0, 1);
      a != 0 && p''.entries == Cleared(p'.entries, {i}) && CounterAfter(p'.entries, {i}, p'.hubCounter, p''.hubCounter)
    ensures p'' == p
  {
    hide BmAddress, BmParent, BmHub, Pack, Tree, AllAttached, DistinctAddresses, DistinctHubs;
    var e := p.entries;
    var (p', a) := Alloc(p, parent, isHub, port);
    var i := IndexOf(e, 0, 1);
    NewAddressIsFresh(p, parent, isHub, port);
    assert Cleared(p'.entries, {i}) == e;
    assert LiveHub(p'.entries, i) == isHub;
    assert isHub ==> i in {i} && Number(p'.entries, i) == p'.hubCounter;
    assert FreesHub(p'.entries, {i}, p'.hubCounter) <==> isHub;
    assert p.hubCounter > 0 ==> !FreesHub(p'.entries, {i}, p.hubCounter) || p''.hubCounter >= p.hubCounter;
  }

  /** The root hub's address is only handed out for the root. */
  lemma RootComesFirst(p: Pool, parent: nat, isHub: bool, port: nat)
    requires WellFormed(p) && Disciplined(p, parent, isHub, port)
    requires Alloc(p, parent, isHub, port).1 == ROOT_HUB
    ensures parent == 0
  {
    hide BmAddress, BmParent, BmHub, Pack;
    RootFields();
    NewAddressIsFresh(p, parent, isHub, port);
  }

  lemma OnlyItself(p: Pool, parent: nat, isHub: bool, port: nat)
    requires WellFormed(p) && Disciplined(p, parent, isHub, port)
    requires Alloc(p, parent, isHub, port).1 != 0
    requires Tree(Alloc(p, parent, isHub, port).0.entries)
    ensures Subtree(Alloc(p, parent, isHub, port).0.entries, IndexOf(p.entries, 0, 1)) == {IndexOf(p.entries, 0, 1)}
  {
    hide BmAddress, BmParent, BmHub, Pack;
    var e := p.entries;
    var (p', a) := Alloc(p, parent, isHub, port);
    var e' := p'.entries;
    var i := IndexOf(e, 0, 1);
    NewAddressIsFresh(p, parent, isHub, port);
    AllocKeeps(p, parent, isHub, port);
    if isHub {
      var h := p'.hubCounter;
      forall k: nat | Live(e', k) && Parent(e', k) == h
        ensures false
      {
        ParentsBelowCounter(p, k);
      }
      forall j: nat
        ensures !Under(e', j, h)
      {
        NoneUnderChildless(e', h, j);
      }
    }
  }

  lemma ParentsBelowCounter(p: Pool, i: nat)
    requires WellFormed(p)
    ensures Live(p.entries, i) ==> Parent(p.entries, i) <= p.hubCounter
  {
    if Live(p.entries, i) && p.entries[i].devAddress != ROOT_HUB && p.entries[i].devAddress != ROOT_DEVICE {
      var k: nat :| LiveHub(p.entries, k) && Number(p.entries, k) == Parent(p.entries, i);
    }
  }

  // ----- runs

  /** What callers do with the pool; SetUp is a write through the pointer that
      GetUsbDevicePtr returns. */
  datatype Op =
    | AllocOp(parent: nat, isHub: bool, port: nat)
    | FreeOp(address: nat)
    | SetUp(address: nat, epCount: nat, lowSpeed: bool, epInfo: nat)

  ghost predicate Step(p: Pool, op: Op, p': Pool)
    requires WellFormed(p)
  {
    match op
    case AllocOp(parent, isHub, port) =>
      Disciplined(p, parent, isHub, port) && p' == Alloc(p, parent, isHub, port).0
    case FreeOp(address) => Freed(p, address, p')
    case SetUp(address, epCount, lowSpeed, epInfo) =>
      var i := if address == 0 then 0 else IndexOf(p.entries, address, 1);
      if address != 0 && i == 0 then p' == p
      else p' == p.(entries := p.entries[i := UsbDevice(p.entries[i].devAddress, epCount, lowSpeed, epInfo)])
  }

  lemma StepKeeps(p: Pool, op: Op, p': Pool)
    requires WellFormed(p) && Step(p, op, p')
    ensures WellFormed(p') && |p'.entries| == |p.entries|
  {
    hide BmAddress, BmParent, BmHub, Alloc;
    match op
    case AllocOp(parent, isHub, port) =>
      AllocKeeps(p, parent, isHub, port);
      AllocKeepsSize(p, parent, isHub, port);
    case FreeOp(address) => FreeKeeps(p, address, p');
    case SetUp(address, epCount, lowSpeed, epInfo) =>
      SetUpKeeps(p, p');
  }

  lemma AllocKeepsSize(p: Pool, parent: nat, isHub: bool, port: nat)
    requires |p.entries| > 0
    ensures |Alloc(p, parent, isHub, port).0.entries| == |p.entries|
  {
  }

  /** Changing the other fields of a live entry, or of entry 0, keeps the
      invariant: it speaks of addresses only. */
  lemma SetUpKeeps(p: Pool, p': Pool)
    requires WellFormed(p) && |p'.entries| == |p.entries| && p'.hubCounter == p.hubCounter
    requires forall i: nat | 0 <= i < |p.entries| :: p'.entries[i].devAddress == p.entries[i].devAddress
    requires forall i: nat | 0 < i < |p.entries| && p.entries[i].devAddress == 0 :: p'.entries[i] == p.entries[i]
    ensures WellFormed(p')
  {
    hide BmAddress, BmParent, BmHub, Tree, AllAttached, DistinctAddresses, DistinctHubs;
    var e, e' := p.entries, p'.entries;
    assert forall i: nat :: Live(e', i) <==> Live(e, i);
    forall i: nat | LiveHub(e', i)
      ensures 1 <= Number(e', i) <= p'.hubCounter
    {
      assert LiveHub(e, i) && Number(e', i) == Number(e, i);
    }
    ThinnedKeeps(p, p');
  }

  /** `states` is a run of the pool under `ops`, each operation disciplined. */
  ghost predicate Run(states: seq<Pool>, ops: seq<Op>) {
    && |states| == |ops| + 1
    && forall i: nat | 0 <= i < |ops| :: WellFormed(states[i]) ==> Step(states[i], ops[i], states[i + 1])
  }

  /** Every state of every run from a new pool is well formed. */
  lemma {:induction false} RunsKeep(maxDevices: nat, states: seq<Pool>, ops: seq<Op>, n: nat)
    requires maxDevices > 0 && Run(states, ops) && states[0] == Pool(seq(maxDevices, _ => INITIAL), 0)
    requires n <= |ops|
    ensures WellFormed(states[n]) && |states[n].entries| == maxDevices
  {
    if n == 0 {
      FreshPoolIsWellFormed(maxDevices);
    } else {
      RunsKeep(maxDevices, states, ops, n - 1);
      StepKeeps(states[n - 1], ops[n - 1], states[n]);
    }
  }

  /** What the invariant buys: each live address is found at its own entry, and
      every chain of parents ends at the root hub. */
  lemma LookupFindsItsEntry(p: Pool, i: nat)
    requires WellFormed(p) && Live(p.entries, i)
    ensures IndexOf(p.entries, p.entries[i].devAddress, 1) == i
  {
  }

  lemma {:induction false} EverythingHangsOffTheRoot(p: Pool, i: nat)
    requires WellFormed(p) && Live(p.entries, i)
    requires p.entries[i].devAddress != ROOT_HUB && p.entries[i].devAddress != ROOT_DEVICE
    ensures Under(p.entries, i, 1) && HasRootHub(p.entries)
    decreases Parent(p.entries, i)
  {
    hide BmAddress, BmParent;
    RootFields();
    var e := p.entries;
    var k: nat :| LiveHub(e, k) && Number(e, k) == Parent(e, i);
    if e[k].devAddress != ROOT_HUB {
      EverythingHangsOffTheRoot(p, k);
    }
  }

  lemma FreesChildless(p: Pool, address: nat, i: nat, p': Pool)
    requires WellFormed(p) && LiveHub(p.entries, i) && p.entries[i].devAddress == address != ROOT_HUB
    requires forall k: nat | Live(p.entries, k) :: Parent(p.entries, k) != Number(p.entries, i)
    requires p'.entries == p.entries[i := INITIAL]
    requires p'.hubCounter == if p.hubCounter == Number(p.entries, i) then p.hubCounter - 1 else p.hubCounter
    ensures Freed(p, address, p')
  {
    hide BmAddress, BmParent, BmHub, Under, HubOrder, Tree;
    LookupFindsItsEntry(p, i);
    ChildlessGoesAlone(p.entries, i);
    assert Cleared(p.entries, {i}) == p'.entries;
    HubNumber(p.entries, i);
    NoDrops(p'.hubCounter);
    assert Drops(p.hubCounter, [Number(p.entries, i)]) == p'.hubCounter;
  }

  /** A pool of three devices after its entry 0. */
  function Three(a: nat, b: nat, c: nat, counter: nat): Pool {
    Pool([INITIAL, INITIAL.(devAddress := a), INITIAL.(devAddress := b), INITIAL.(devAddress := c)], counter)
  }

  lemma Arrivals()
    ensures Alloc(Three(0, 0, 0, 0), 0, true, 0).0 == Three(0x41, 0, 0, 1)
    ensures Alloc(Three(0x41, 0, 0, 1), 0x41, true, 1).0 == Three(0x41, 0x4A, 0, 2)
    ensures Alloc(Three(0x41, 0x4A, 0, 2), 0x41, true, 2).0 == Three(0x41, 0x4A, 0x4B, 3)
  {
  }

  lemma HubsArrive()
    ensures WellFormed(Three(0, 0, 0, 0)) && Step(Three(0, 0, 0, 0), AllocOp(0, true, 0), Three(0x41, 0, 0, 1))
    ensures WellFormed(Three(0x41, 0, 0, 1)) && Step(Three(0x41, 0, 0, 1), AllocOp(0x41, true, 1), Three(0x41, 0x4A, 0, 2))
    ensures WellFormed(Three(0x41, 0x4A, 0, 2)) && Step(Three(0x41, 0x4A, 0, 2), AllocOp(0x41, true, 2), Three(0x41, 0x4A, 0x4B, 3))
    ensures WellFormed(Three(0x41, 0x4A, 0x4B, 3))
  {
    hide WellFormed, Alloc;
    FreshPoolIsWellFormed(4);
    assert Three(0, 0, 0, 0) == Pool(seq(4, _ => INITIAL), 0);
    assert LiveHub(Three(0x41, 0, 0, 1).entries, 1) && LiveHub(Three(0x41, 0x4A, 0, 2).entries, 1);
    Arrivals();
    AllocKeeps(Three(0, 0, 0, 0), 0, true, 0);
    AllocKeeps(Three(0x41, 0, 0, 1), 0x41, true, 1);
    AllocKeeps(Three(0x41, 0x4A, 0, 2), 0x41, true, 2);
  }

  lemma HubsLeave()
    requires WellFormed(Three(0x41, 0x4A, 0x4B, 3))
    ensures Freed(Three(0x41, 0x4A, 0x4B, 3), 0x4A, Three(0x41, 0, 0x4B, 3))
    ensures WellFormed(Three(0x41, 0, 0x4B, 3)) && Freed(Three(0x41, 0, 0x4B, 3), 0x4B, Three(0x41, 0, 0, 2))
  {
    hide WellFormed, Freed;
    FreesChildless(Three(0x41, 0x4A, 0x4B, 3), 0x4A, 2, Three(0x41, 0, 0x4B, 3));
    FreeKeeps(Three(0x41, 0x4A, 0x4B, 3), 0x4A, Three(0x41, 0, 0x4B, 3));
    FreesChildless(Three(0x41, 0, 0x4B, 3), 0x4B, 3, Three(0x41, 0, 0, 2));
  }

  lemma OnlyRoot()
    ensures Three(0, 0, 0, 0) == Pool(seq(4, _ => INITIAL), 0)
    ensures IsGreatest(Three(0x41, 0, 0, 2).entries, 1) && Three(0x41, 0, 0, 2).hubCounter == 2
  {
    var e := Three(0x41, 0, 0, 2).entries;
    assert LiveHub(e, 1) && Number(e, 1) == 1;
  }

  /** The counter can stay above every live hub: the root hub and hubs 2 and 3
      arrive in a new pool, hub 2 leaves and then hub 3. */
  lemma CounterLagsOnARun(states: seq<Pool>, ops: seq<Op>)
    requires ops == [AllocOp(0, true, 0), AllocOp(0x41, true, 1), AllocOp(0x41, true, 2), FreeOp(0x4A), FreeOp(0x4B)]
    requires states == [Three(0, 0, 0, 0), Three(0x41, 0, 0, 1), Three(0x41, 0x4A, 0, 2),
                        Three(0x41, 0x4A, 0x4B, 3), Three(0x41, 0, 0x4B, 3), Three(0x41, 0, 0, 2)]
    ensures Run(states, ops) && states[0] == Pool(seq(4, _ => INITIAL), 0)
    ensures IsGreatest(states[5].entries, 1) && states[5].hubCounter == 2
  {
    hide WellFormed, Freed, Alloc, Disciplined, IsGreatest, Three;
    HubsArrive();
    HubsLeave();
    OnlyRoot();
    assert forall i: nat | i < 5 :: Step(states[i], ops[i], states[i + 1]);
  }
}
