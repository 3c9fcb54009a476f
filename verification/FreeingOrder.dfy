/** In which order a subtree is freed, told by the paths of its hubs, and where
    that leaves the hub counter. */
module FreeingOrder {
  import opened AddressPool
  import opened AddressDiscipline

  // ----- paths

  /** The live hub with this number, 0 if there is none. */
  function HubWith(e: Entries, n: nat, from: nat): (i: nat)
    requires 0 < from
    ensures i != 0 ==> from <= i && LiveHub(e, i) && Number(e, i) == n
    ensures forall j | from <= j < |e| && (i == 0 || j < i) :: !(LiveHub(e, j) && Number(e, j) == n)
    decreases |e| - from
  {
    if from >= |e| then 0
    else if LiveHub(e, from) && Number(e, from) == n then from
    else HubWith(e, n, from + 1)
  }

  /** The entries on the way from the top of the forest down to entry k. */
  ghost function Path(e: Entries, k: nat): seq<nat>
    requires Tree(e) && k < |e|
    decreases Parent(e, k)
  {
    var hub := HubWith(e, Parent(e, k), 1);
    (if hub == 0 then [] else Path(e, hub)) + [k]
  }

  /** A path comes before the one it prolongs, and where two part the lower
      entry comes first. */
  ghost predicate PostOrder(a: seq<nat>, b: seq<nat>) {
    || b < a
    || exists n | 0 <= n < |a| && n < |b| :: a[..n] == b[..n] && a[n] < b[n]
  }

  lemma AgreeBelow(a: seq<nat>, b: seq<nat>, m: nat, n: nat)
    requires n < m <= |a| && m <= |b| && a[..m] == b[..m]
    ensures a[n] == b[n]
  {
    assert a[..m][n] == b[..m][n];
  }

  lemma PostOrderIsStrict(a: seq<nat>, b: seq<nat>)
    requires PostOrder(a, b)
    ensures !PostOrder(b, a)
  {
    if n :| 0 <= n < |a| && n < |b| && a[..n] == b[..n] && a[n] < b[n] {
      forall m | 0 <= m < |a| && m < |b| && b[..m] == a[..m]
        ensures b[m] >= a[m]
      {
        if m > n {
          AgreeBelow(a, b, m, n);
          assert false;
        } else if m < n {
          AgreeBelow(a, b, n, m);
        }
      }
    } else {
      assert forall m | 0 <= m < |b| :: b[m] == a[m];
    }
  }

  lemma ProlongedFirst(a: seq<nat>, b: seq<nat>)
    requires b < a
    ensures PostOrder(a, b)
  {
  }

  lemma LowerBranchFirst(stem: seq<nat>, x: nat, y: nat, a: seq<nat>, b: seq<nat>)
    requires stem + [x] <= a && stem + [y] <= b && x < y
    ensures PostOrder(a, b)
  {
    var n := |stem|;
    assert a[..n] == (stem + [x])[..n] == stem && b[..n] == (stem + [y])[..n] == stem;
    assert a[n] == (stem + [x])[n] && b[n] == (stem + [y])[n];
  }

  lemma HubWithFinds(e: Entries, hub: nat)
    requires DistinctHubs(e) && LiveHub(e, hub)
    ensures HubWith(e, Number(e, hub), 1) == hub
  {
  }

  lemma PathOfChild(e: Entries, hub: nat, k: nat)
    requires Tree(e) && DistinctHubs(e) && LiveHub(e, hub) && k < |e| && Parent(e, k) == Number(e, hub)
    ensures Path(e, k) == Path(e, hub) + [k]
  {
    HubWithFinds(e, hub);
  }

  lemma {:induction false} PathUnder(e: Entries, hub: nat, k: nat)
    requires Tree(e) && DistinctHubs(e) && LiveHub(e, hub) && Under(e, k, Number(e, hub))
    ensures Path(e, hub) < Path(e, k)
    decreases Parent(e, k)
  {
    hide BmAddress, BmParent, BmHub, Path, Tree, DistinctHubs;
    if Parent(e, k) == Number(e, hub) {
      PathOfChild(e, hub, k);
    } else {
      var m :| LiveHub(e, m) && Number(e, m) == Parent(e, k) && Parent(e, m) < Parent(e, k) && Under(e, m, Number(e, hub));
      PathUnder(e, hub, m);
      PathOfChild(e, m, k);
    }
  }

  /** What hangs off a hub does so through one of its children. */
  lemma {:induction false} ThroughChild(e: Entries, hub: nat, k: nat) returns (child: nat)
    requires Tree(e) && DistinctHubs(e) && LiveHub(e, hub) && Under(e, k, Number(e, hub))
    ensures Live(e, child) && Parent(e, child) == Number(e, hub) && Path(e, hub) + [child] <= Path(e, k)
    decreases Parent(e, k)
  {
    hide BmAddress, BmParent, BmHub, Path, Tree, DistinctHubs;
    if Parent(e, k) == Number(e, hub) {
      child := k;
      PathOfChild(e, hub, k);
    } else {
      var m :| LiveHub(e, m) && Number(e, m) == Parent(e, k) && Parent(e, m) < Parent(e, k) && Under(e, m, Number(e, hub));
      child := ThroughChild(e, hub, m);
      PathOfChild(e, m, k);
    }
  }

  /** Clearing a closed set leaves the paths of the rest. */
  lemma {:induction false} PathAfterClearing(e: Entries, freed: set<nat>, k: nat)
    requires Tree(e) && DistinctHubs(e) && ClosedDown(e, freed) && Live(e, k) && k !in freed && Tree(Cleared(e, freed))
    ensures Path(Cleared(e, freed), k) == Path(e, k)
    decreases Parent(e, k)
  {
    hide BmAddress, BmParent, BmHub, Tree, DistinctHubs;
    EmptyEntry();
    var c := Cleared(e, freed);
    ClearedDistinctHubs(e, freed);
    assert forall j: nat | LiveHub(c, j) :: LiveHub(e, j) && Number(e, j) == Number(c, j);
    var hub := HubWith(e, Parent(e, k), 1);
    if hub != 0 {
      assert hub !in freed && LiveHub(c, hub) && Number(c, hub) == Number(e, hub);
      HubWithFinds(c, hub);
      HubNumber(e, hub);
      PathAfterClearing(e, freed, hub);
    }
  }

  // ----- the order of freeing is the order of the paths

  ghost predicate HubAt(e: Entries, k: nat, n: nat) {
    LiveHub(e, k) && Number(e, k) == n
  }

  ghost predicate Ordered(order: seq<nat>, e: Entries)
    requires Tree(e)
  {
    forall p, q, a, b | 0 <= p < q < |order| && HubAt(e, a, order[p]) && HubAt(e, b, order[q]) :: PostOrder(Path(e, a), Path(e, b))
  }

  /** A child of `hub` has been freed with its subtree; the hub and the children
      above it are still there. */
  lemma NextChild(e: Entries, hub: nat, from: nat)
    requires Tree(e) && DistinctHubs(e) && LiveHub(e, hub) && 0 < from < |e| && Parent(e, from) == Number(e, hub)
    requires forall j: nat | Live(e, j) && j < from :: Parent(e, j) != Number(e, hub)
    ensures var c := Cleared(e, Subtree(e, from));
      && Tree(c) && DistinctHubs(c) && ClosedDown(e, Subtree(e, from))
      && hub !in Subtree(e, from) && LiveHub(c, hub) && Number(c, hub) == Number(e, hub)
      && forall j: nat | Live(c, j) && j < from + 1 :: Parent(c, j) != Number(e, hub)
  {
    hide BmAddress, BmParent, BmHub, Tree, DistinctHubs, Under;
    EmptyEntry();
    var sub := Subtree(e, from);
    var c := Cleared(e, sub);
    ClearedTree(e, sub);
    ClearedDistinctHubs(e, sub);
    SubtreeIsClosed(e, from);
    HubNumber(e, hub);
    if LiveHub(e, from) {
      HubNumber(e, from);
      if Under(e, hub, Number(e, from)) {
        ParentAboveHub(e, hub, Number(e, from));
      }
    }
    assert from in sub && c[from] == INITIAL;
    assert forall j: nat | Live(c, j) :: Live(e, j) && Parent(c, j) == Parent(e, j);
  }

  /** A hub freed later than a closed set is where it was. */
  lemma FreedLater(e: Entries, freed: set<nat>, later: set<nat>, a: nat)
    requires Tree(e) && DistinctHubs(e) && ClosedDown(e, freed) && Tree(Cleared(e, freed)) && LiveHub(e, a)
    requires FreesHub(Cleared(e, freed), later, Number(e, a))
    ensures a !in freed && a in later && HubAt(Cleared(e, freed), a, Number(e, a)) && Path(Cleared(e, freed), a) == Path(e, a)
  {
    hide BmAddress, BmParent, BmHub, Tree, DistinctHubs, Path;
    EmptyEntry();
    var c := Cleared(e, freed);
    var k :| k in later && LiveHub(c, k) && Number(c, k) == Number(e, a);
    assert k !in freed && LiveHub(e, k) && Number(e, k) == Number(c, k);
    OnlyHub(e, a);
    PathAfterClearing(e, freed, a);
  }

  lemma FreedNow(e: Entries, freed: set<nat>, a: nat)
    requires DistinctHubs(e) && LiveHub(e, a) && FreesHub(e, freed, Number(e, a))
    ensures a in freed
  {
    OnlyHub(e, a);
  }

  /** The subtree of an earlier child comes before what hangs off later ones. */
  lemma AcrossChildren(e: Entries, hub: nat, from: nat, a: nat, b: nat)
    requires Tree(e) && DistinctHubs(e) && LiveHub(e, hub) && 0 < from < |e| && Parent(e, from) == Number(e, hub)
    requires forall j: nat | Live(e, j) && j < from :: Parent(e, j) != Number(e, hub)
    requires a in Subtree(e, from) && a < |e| && b < |e| && Tree(Cleared(e, Subtree(e, from)))
    requires Under(Cleared(e, Subtree(e, from)), b, Number(e, hub)) && Path(Cleared(e, Subtree(e, from)), b) == Path(e, b)
    ensures PostOrder(Path(e, a), Path(e, b))
  {
    hide BmAddress, BmParent, BmHub, Tree, DistinctHubs, Under, Path, PostOrder, Cleared;
    NextChild(e, hub, from);
    var sub := Subtree(e, from);
    PathAfterClearing(e, sub, hub);
    var child := ThroughChild(Cleared(e, sub), hub, b);
    PathOfChild(e, hub, from);
    if a != from {
      PathUnder(e, from, a);
    }
    LowerBranchFirst(Path(e, hub), from, child, Path(e, a), Path(e, b));
  }

  lemma {:induction false} HubOrderOrdered(e: Entries, i: nat)
    requires Tree(e) && DistinctHubs(e) && 0 < i < |e|
    ensures Ordered(HubOrder(e, i), e)
    decreases if LiveHub(e, i) then 8 - Number(e, i) else 0, |e| + 1
  {
    hide BmAddress, BmParent, BmHub, DistinctHubs, ChildOrder, Under, Tree, Path, PostOrder;
    if LiveHub(e, i) {
      HubNumber(e, i);
      var h := Number(e, i);
      var children := ChildOrder(e, h, 1);
      EmptyEntry();
      ChildOrderOrdered(e, i, 1);
      ChildOrderLists(e, h, 1);
      forall p, q, a, b | 0 <= p < q < |children| + 1 && HubAt(e, a, (children + [h])[p]) && HubAt(e, b, (children + [h])[q])
        ensures PostOrder(Path(e, a), Path(e, b))
      {
        if q == |children| {
          assert children[p] in children;
          FreedNow(e, AllUnder(e, h), a);
          OnlyHub(e, b);
          PathUnder(e, i, a);
          ProlongedFirst(Path(e, a), Path(e, i));
        }
      }
    }
  }

  lemma {:induction false} ChildOrderOrdered(e: Entries, hub: nat, from: nat)
    requires Tree(e) && DistinctHubs(e) && LiveHub(e, hub) && 0 < Number(e, hub) < 8 && 0 < from <= |e|
    requires forall j: nat | Live(e, j) && j < from :: Parent(e, j) != Number(e, hub)
    ensures Ordered(ChildOrder(e, Number(e, hub), from), e)
    decreases 8 - Number(e, hub), |e| - from
  {
    hide BmAddress, BmParent, BmHub, DistinctHubs, HubOrder, Under, Tree, Path, PostOrder, Subtree, Cleared, FreesHub;
    var h := Number(e, hub);
    if from < |e| && Parent(e, from) == h {
      var sub := Subtree(e, from);
      var c := Cleared(e, sub);
      NextChild(e, hub, from);
      ChildUnder(e, h, from);
      HubOrderOrdered(e, from);
      HubOrderLists(e, from);
      ChildOrderOrdered(c, hub, from + 1);
      ChildOrderLists(c, h, from + 1);
      var first, second := HubOrder(e, from), ChildOrder(c, h, from + 1);
      forall p, q, a, b | 0 <= p < q < |first + second| && HubAt(e, a, (first + second)[p]) && HubAt(e, b, (first + second)[q])
        ensures PostOrder(Path(e, a), Path(e, b))
      {
        if |first| <= q {
          assert second[q - |first|] in second;
          FreedLater(e, sub, AllUnder(c, h), b);
          if p < |first| {
            assert first[p] in first;
            FreedNow(e, sub, a);
            AcrossChildren(e, hub, from, a, b);
          } else {
            assert second[p - |first|] in second;
            FreedLater(e, sub, AllUnder(c, h), a);
          }
        }
      }
    } else if from < |e| {
      ChildOrderOrdered(e, hub, from + 1);
    }
  }

  // ----- the counter

  /** The number n + 1 comes before n. */
  ghost predicate Descends(order: seq<nat>, n: nat) {
    exists p, q | 0 <= p < q < |order| :: order[p] == n + 1 && order[q] == n
  }

  lemma DescendsIn(x: nat, rest: seq<nat>, n: nat)
    requires x !in rest
    ensures Descends([x] + rest, n) <==> if n + 1 == x then n in rest else n != x && Descends(rest, n)
  {
    var all := [x] + rest;
    assert forall i | 0 <= i < |rest| :: all[i + 1] == rest[i];
    if p, q :| 0 <= p < q < |all| && all[p] == n + 1 && all[q] == n {
      assert rest[q - 1] == n;
      assert p > 0 ==> rest[p - 1] == n + 1;
    }
    if n + 1 == x && n in rest {
      var i :| 0 <= i < |rest| && rest[i] == n;
      assert all[0] == n + 1 && all[i + 1] == n;
    }
    if p, q :| 0 <= p < q < |rest| && rest[p] == n + 1 && rest[q] == n {
      assert all[p + 1] == n + 1 && all[q + 1] == n;
    }
  }

  /** Every number above g up to the counter is there, each before the next
      lower one. */
  ghost predicate DescendsTo(counter: nat, order: seq<nat>, g: nat) {
    && (forall n | g < n <= counter :: n in order)
    && (forall n | g < n < counter :: Descends(order, n))
  }

  /** Numbers that come once each bring the counter to g or below exactly so. */
  lemma {:induction false} DropsAtMostExactlyWhen(counter: nat, order: seq<nat>, g: nat)
    requires g <= counter && forall n | n in order :: 0 < n <= counter
    requires forall a, b | 0 <= a < b < |order| :: order[a] != order[b]
    ensures Drops(counter, order) <= g <==> DescendsTo(counter, order, g)
    decreases |order|
  {
    hide Descends;
    if g == counter {
      DropsOverListed(counter, order);
    } else if order == [] {
      assert counter !in order;
    } else {
      var x, rest := order[0], order[1..];
      assert order == [x] + rest;
      assert forall i | 0 <= i < |rest| :: rest[i] == order[i + 1];
      assert x !in rest;
      assert forall n: nat :: n in order <==> n == x || n in rest;
      forall n: nat
        ensures Descends(order, n) <==> if n + 1 == x then n in rest else n != x && Descends(rest, n)
      {
        DescendsIn(x, rest, n);
      }
      if x == counter {
        DropsAtMostExactlyWhen(counter - 1, rest, g);
        FirstDescends(counter, order, rest, g);
      } else {
        DropsAtMostExactlyWhen(counter, rest, g);
        OtherDescends(counter, x, order, rest, g);
      }
    }
  }

  lemma FirstDescends(counter: nat, order: seq<nat>, rest: seq<nat>, g: nat)
    requires g < counter && counter !in rest && forall n: nat :: n in order <==> n == counter || n in rest
    requires forall n: nat :: Descends(order, n) <==> if n + 1 == counter then n in rest else n != counter && Descends(rest, n)
    ensures DescendsTo(counter, order, g) <==> DescendsTo(counter - 1, rest, g)
  {
    hide Descends;
  }

  lemma OtherDescends(counter: nat, x: nat, order: seq<nat>, rest: seq<nat>, g: nat)
    requires g < counter && x < counter && x !in rest && forall n: nat :: n in order <==> n == x || n in rest
    requires forall n: nat :: Descends(order, n) <==> if n + 1 == x then n in rest else n != x && Descends(rest, n)
    ensures DescendsTo(counter, order, g) <==> DescendsTo(counter, rest, g)
  {
    hide Descends;
    if g < x {
      assert !Descends(order, x) && x !in rest;
    }
  }

  /** Every number above g up to the counter is freed, each before the next
      lower one. */
  ghost predicate FreedDownTo(p: Pool, freed: set<nat>, g: nat)
    requires Tree(p.entries)
  {
    && (forall n | g < n <= p.hubCounter :: FreesHub(p.entries, freed, n))
    && (forall a, b | a in freed && b in freed && LiveHub(p.entries, a) && LiveHub(p.entries, b)
                      && g < Number(p.entries, b) && Number(p.entries, a) == Number(p.entries, b) + 1 ::
          PostOrder(Path(p.entries, a), Path(p.entries, b)))
  }

  /** Where a free leaves the counter, told by the tree alone: at g or below
      exactly when every number from the counter down to g + 1 is a hub's of the
      subtree, and each comes before the next lower one in the order of their
      paths. */
  lemma CounterFollowsPaths(p: Pool, address: nat, p': Pool, g: nat)
    requires WellFormed(p) && Freed(p, address, p') && g <= p.hubCounter
    requires address != ROOT_HUB && IndexOf(p.entries, address, 1) != 0
    ensures p'.hubCounter <= g <==> FreedDownTo(p, Subtree(p.entries, IndexOf(p.entries, address, 1)), g)
  {
    hide BmAddress, BmParent, BmHub, HubOrder, Drops, Under, Tree, DistinctHubs, DistinctAddresses, AllAttached, Subtree, Path, PostOrder, Descends, FreesHub;
    var e := p.entries;
    var i := IndexOf(e, address, 1);
    var freed, order := Subtree(e, i), HubOrder(e, i);
    HubOrderLists(e, i);
    HubOrderOrdered(e, i);
    NumbersInRange(p, freed);
    DropsAtMostExactlyWhen(p.hubCounter, order, g);
    if forall n | g < n <= p.hubCounter :: FreesHub(e, freed, n) {
      forall a, b | a in freed && b in freed && LiveHub(e, a) && LiveHub(e, b) && g < Number(e, b) && Number(e, a) == Number(e, b) + 1
        ensures Number(e, b) < p.hubCounter && (Descends(order, Number(e, b)) <==> PostOrder(Path(e, a), Path(e, b)))
      {
        FreesItself(e, freed, a);
        FreesItself(e, freed, b);
        DescendsByPath(e, order, a, b);
      }
      if FreedDownTo(p, freed, g) {
        forall n: nat | g < n < p.hubCounter
          ensures Descends(order, n)
        {
          var a := Freeing(e, freed, n + 1);
          var b := Freeing(e, freed, n);
        }
      }
    }
  }

  lemma NumbersInRange(p: Pool, freed: set<nat>)
    requires WellFormed(p)
    ensures forall n: nat | FreesHub(p.entries, freed, n) :: 0 < n <= p.hubCounter
  {
  }

  lemma FreesItself(e: Entries, freed: set<nat>, a: nat)
    requires a in freed && LiveHub(e, a)
    ensures FreesHub(e, freed, Number(e, a))
  {
  }

  lemma Freeing(e: Entries, freed: set<nat>, n: nat) returns (a: nat)
    requires FreesHub(e, freed, n)
    ensures a in freed && LiveHub(e, a) && Number(e, a) == n
  {
    a :| a in freed && LiveHub(e, a) && Number(e, a) == n;
  }

  lemma DescendsByPath(e: Entries, order: seq<nat>, a: nat, b: nat)
    requires Tree(e) && Ordered(order, e) && LiveHub(e, a) && LiveHub(e, b)
    requires Number(e, a) in order && Number(e, b) in order && Number(e, a) == Number(e, b) + 1
    ensures Descends(order, Number(e, b)) <==> PostOrder(Path(e, a), Path(e, b))
  {
    hide BmAddress, BmParent, BmHub, Tree, Path, PostOrder;
    assert HubAt(e, a, Number(e, a)) && HubAt(e, b, Number(e, b));
    var p :| 0 <= p < |order| && order[p] == Number(e, a);
    var q :| 0 <= q < |order| && order[q] == Number(e, b);
    if q < p && PostOrder(Path(e, a), Path(e, b)) {
      PostOrderIsStrict(Path(e, a), Path(e, b));
      assert false;
    }
  }

  // ----- two shapes

  lemma SubtreeNumbers(e: Entries, i: nat, k: nat)
    requires Tree(e) && LiveHub(e, i) && k in Subtree(e, i) && LiveHub(e, k)
    ensures k == i || Number(e, k) > Number(e, i)
  {
    hide BmAddress, BmParent, BmHub, Under;
    if k != i {
      ParentAboveHub(e, k, Number(e, i));
    }
  }

  /** The counter never goes below the numbers freed. */
  lemma CounterStaysAtFreed(p: Pool, address: nat, p': Pool)
    requires WellFormed(p) && Freed(p, address, p') && address != ROOT_HUB && LiveHub(p.entries, IndexOf(p.entries, address, 1))
    ensures Number(p.entries, IndexOf(p.entries, address, 1)) - 1 <= p'.hubCounter <= p.hubCounter
  {
    hide BmAddress, BmParent, BmHub, HubOrder, Drops, Under, Tree, DistinctHubs, DistinctAddresses, AllAttached, Subtree;
    var e := p.entries;
    var i := IndexOf(e, address, 1);
    CounterOfFreed(e, i, p.hubCounter);
    var m := Number(e, i);
    assert 1 <= m <= p.hubCounter;
    if p'.hubCounter < m - 1 {
      var k := Freeing(e, Subtree(e, i), m - 1);
      SubtreeNumbers(e, i, k);
      assert false;
    }
  }

  /** Hubs that hang off each other in a chain, numbered from the one freed up to
      the counter: all numbers come free again. */
  lemma ChainTakesCounterDown(p: Pool, address: nat, p': Pool)
    requires WellFormed(p) && Freed(p, address, p') && address != ROOT_HUB && LiveHub(p.entries, IndexOf(p.entries, address, 1))
    requires var e, i := p.entries, IndexOf(p.entries, address, 1);
      && (forall n | Number(e, i) <= n <= p.hubCounter :: FreesHub(e, Subtree(e, i), n))
      && (forall k | k in Subtree(e, i) && LiveHub(e, k) && k != i :: Parent(e, k) == Number(e, k) - 1)
    ensures p'.hubCounter == Number(p.entries, IndexOf(p.entries, address, 1)) - 1
  {
    hide BmAddress, BmParent, BmHub, Under, Tree, DistinctHubs, DistinctAddresses, AllAttached, Path, PostOrder, Freed;
    var e := p.entries;
    var i := IndexOf(e, address, 1);
    HubNumber(e, i);
    CounterStaysAtFreed(p, address, p');
    forall a, b | a in Subtree(e, i) && b in Subtree(e, i) && LiveHub(e, a) && LiveHub(e, b) && Number(e, a) == Number(e, b) + 1
      ensures PostOrder(Path(e, a), Path(e, b))
    {
      SubtreeNumbers(e, i, b);
      PathOfChild(e, b, a);
      ProlongedFirst(Path(e, a), Path(e, b));
    }
    CounterFollowsPaths(p, address, p', Number(e, i) - 1);
  }

  /** Two hubs next to each other under the one freed, the last three numbers:
      all come free again exactly when the later of them has the lower entry. */
  lemma SiblingsGoByEntry(p: Pool, address: nat, p': Pool, x: nat, y: nat)
    requires WellFormed(p) && Freed(p, address, p') && address != ROOT_HUB && LiveHub(p.entries, IndexOf(p.entries, address, 1))
    requires var e, i := p.entries, IndexOf(p.entries, address, 1);
      var m := Number(e, i);
      && p.hubCounter == m + 2 && HubAt(e, x, m + 1) && HubAt(e, y, m + 2) && Parent(e, x) == m && Parent(e, y) == m
      && forall k | k in Subtree(e, i) && LiveHub(e, k) :: k == i || k == x || k == y
    ensures p'.hubCounter == Number(p.entries, IndexOf(p.entries, address, 1)) - 1 <==> y < x
  {
    hide BmAddress, BmParent, BmHub, Tree, DistinctHubs, DistinctAddresses, AllAttached, Path, PostOrder, Freed;
    var e := p.entries;
    var i := IndexOf(e, address, 1);
    var m := Number(e, i);
    HubNumber(e, i);
    CounterStaysAtFreed(p, address, p');
    assert x in Subtree(e, i) && y in Subtree(e, i) && i in Subtree(e, i);
    FreesItself(e, Subtree(e, i), x);
    FreesItself(e, Subtree(e, i), y);
    FreesItself(e, Subtree(e, i), i);
    PathOfChild(e, i, x);
    PathOfChild(e, i, y);
    ProlongedFirst(Path(e, x), Path(e, i));
    var stem := Path(e, i);
    if y < x {
      LowerBranchFirst(stem, y, x, Path(e, y), Path(e, x));
    } else {
      LowerBranchFirst(stem, x, y, Path(e, x), Path(e, y));
      PostOrderIsStrict(Path(e, x), Path(e, y));
    }
    CounterFollowsPaths(p, address, p', m - 1);
  }
}
