/** The pool of USB device addresses: a fixed array of entries holding a forest
    of hubs and devices, packed into 7-bit addresses. */
module AddressPool {

  // ----- addresses: | reserved | H | P P P | A A A |

  const ROOT_HUB: nat := 0x41
  const ROOT_DEVICE: nat := 1

  /** Device address, or hub number for a hub. */
  function BmAddress(a: nat): nat {
    a % 8
  }

  /** Number of the hub the device hangs off. */
  function BmParent(a: nat): nat {
    a / 8 % 8
  }

  predicate BmHub(a: nat) {
    a / 64 % 2 == 1
  }

  function Pack(hub: bool, parent: nat, number: nat): nat {
    (if hub then 64 else 0) + 8 * parent + number
  }

  lemma PackFields(hub: bool, parent: nat, number: nat)
    requires parent < 8 && number < 8
    ensures var a := Pack(hub, parent, number);
      a < 128 && BmHub(a) == hub && BmParent(a) == parent && BmAddress(a) == number
  {
  }

  lemma FieldsDetermine(a: nat, b: nat)
    requires a < 128 && b < 128
    ensures a == b <==> BmHub(a) == BmHub(b) && BmParent(a) == BmParent(b) && BmAddress(a) == BmAddress(b)
  {
  }

  // ----- the pool as a value

  /** An entry; `epInfo` stands for the endpoint table it points to, 0 for the
      shared one used during enumeration. */
  datatype UsbDevice = UsbDevice(devAddress: nat, epCount: nat, lowSpeed: bool, epInfo: nat)

  const INITIAL := UsbDevice(0, 1, false, 0)

  type Entries = seq<UsbDevice>

  datatype Pool = Pool(entries: Entries, hubCounter: nat)

  predicate Live(e: Entries, i: nat) {
    0 < i < |e| && e[i].devAddress != 0
  }

  predicate LiveHub(e: Entries, i: nat) {
    Live(e, i) && BmHub(e[i].devAddress)
  }

  function Parent(e: Entries, i: nat): nat
    requires i < |e|
  {
    BmParent(e[i].devAddress)
  }

  function Number(e: Entries, i: nat): nat
    requires i < |e|
  {
    BmAddress(e[i].devAddress)
  }

  /** The first entry from `from` on with this address, 0 if there is none. */
  function IndexOf(e: Entries, address: nat, from: nat): (i: nat)
    requires 0 < from
    ensures i == 0 || (from <= i < |e| && e[i].devAddress == address)
    ensures forall j | from <= j < |e| && (i == 0 || j < i) :: e[j].devAddress != address
    decreases |e| - from
  {
    if from >= |e| then 0
    else if e[from].devAddress == address then from
    else IndexOf(e, address, from + 1)
  }

  // ----- the hub tree

  /** What makes freeing terminate: a hub's number exceeds its parent's. */
  ghost predicate Tree(e: Entries) {
    forall i | LiveHub(e, i) :: Parent(e, i) < Number(e, i)
  }

  /** Entry i hangs, directly or through other hubs, off hub number h. */
  ghost predicate Under(e: Entries, i: nat, h: nat)
    requires Tree(e)
    decreases if i < |e| then Parent(e, i) else 0
  {
    && Live(e, i)
    && (|| Parent(e, i) == h
        || exists k | LiveHub(e, k) && Number(e, k) == Parent(e, i) && Parent(e, k) < Parent(e, i) :: Under(e, k, h))
  }

  /** With each of its hubs, `freed` holds everything that hangs off it. */
  ghost predicate ClosedDown(e: Entries, freed: set<nat>) {
    forall k, j | k in freed && LiveHub(e, k) && Live(e, j) && Parent(e, j) == Number(e, k) :: j in freed
  }

  /** The pool with the entries in `freed` back in their initial state. */
  function Cleared(e: Entries, freed: set<nat>): (r: Entries)
    ensures |r| == |e|
  {
    seq(|e|, j requires 0 <= j < |e| => if j in freed then INITIAL else e[j])
  }

  ghost function Subtree(e: Entries, i: nat): set<nat>
    requires Tree(e) && i < |e|
  {
    {i} + if LiveHub(e, i) then set j | 0 <= j < |e| && Under(e, j, Number(e, i)) else {}
  }

  lemma ClearedTree(e: Entries, freed: set<nat>)
    requires Tree(e)
    ensures Tree(Cleared(e, freed))
  {
    var c := Cleared(e, freed);
    forall i | LiveHub(c, i)
      ensures Parent(c, i) < Number(c, i)
    {
      assert LiveHub(e, i);
    }
  }

  /** Clearing a closed set does not change what hangs off what in the rest. */
  lemma {:induction false} UnderAfterClearing(e: Entries, freed: set<nat>, i: nat, h: nat)
    requires Tree(e) && Tree(Cleared(e, freed)) && ClosedDown(e, freed) && h > 0
    ensures Under(Cleared(e, freed), i, h) <==> i !in freed && Under(e, i, h)
    decreases if i < |e| then Parent(e, i) else 0
  {
    var c := Cleared(e, freed);
    if Live(e, i) && i !in freed {
      forall k | LiveHub(e, k) && Number(e, k) == Parent(e, i) && Parent(e, k) < Parent(e, i)
        ensures LiveHub(c, k) && (Under(c, k, h) <==> Under(e, k, h))
      {
        assert k !in freed;
        UnderAfterClearing(e, freed, k, h);
      }
      assert forall k :: LiveHub(c, k) ==> LiveHub(e, k) && Number(e, k) == Number(c, k) && Parent(e, k) == Parent(c, k);
    }
  }

  /** Everything under h lies in a closed set that holds h's own children. */
  lemma {:induction false} ClosedSetHoldsSubtree(e: Entries, freed: set<nat>, h: nat, i: nat)
    requires Tree(e) && ClosedDown(e, freed) && Under(e, i, h)
    requires forall j | Live(e, j) && Parent(e, j) == h :: j in freed
    ensures i in freed
    decreases Parent(e, i)
  {
    if Parent(e, i) != h {
      var k :| LiveHub(e, k) && Number(e, k) == Parent(e, i) && Parent(e, k) < Parent(e, i) && Under(e, k, h);
      ClosedSetHoldsSubtree(e, freed, h, k);
    }
  }

  lemma SubtreeIsClosed(e: Entries, i: nat)
    requires Tree(e) && 0 < i < |e|
    ensures ClosedDown(e, Subtree(e, i))
  {
    hide BmAddress, BmParent, BmHub;
    var s := Subtree(e, i);
    forall k, j | k in s && LiveHub(e, k) && Live(e, j) && Parent(e, j) == Number(e, k)
      ensures j in s
    {
      if k != i {
        assert Parent(e, k) < Parent(e, j);
        assert Under(e, j, Number(e, i));
      }
    }
  }

  // ----- the order of freeing

  /** The numbers of the hubs that freeing entry i frees, in the order in which
      it does: those of its children first. */
  ghost function HubOrder(e: Entries, i: nat): seq<nat>
    requires Tree(e) && 0 < i < |e|
    decreases if LiveHub(e, i) then 8 - Number(e, i) else 0, |e| + 1
  {
    if LiveHub(e, i) then ChildOrder(e, Number(e, i), 1) + [Number(e, i)] else []
  }

  /** The same for the children of hub number h from entry `from` on; each takes
      its subtree with it before the next is looked at. */
  ghost function ChildOrder(e: Entries, h: nat, from: nat): seq<nat>
    requires Tree(e) && 0 < h < 8 && 0 < from <= |e|
    decreases 8 - h, |e| - from
  {
    if from == |e| then []
    else if Parent(e, from) == h then
      ClearedTree(e, Subtree(e, from));
      HubOrder(e, from) + ChildOrder(Cleared(e, Subtree(e, from)), h, from + 1)
    else ChildOrder(e, h, from + 1)
  }

  /** The hub counter when hubs are freed in this order: it drops each time the
      number it holds is freed. */
  ghost function Drops(counter: nat, order: seq<nat>): nat {
    if order == [] then counter
    else Drops(if order[0] == counter > 0 then counter - 1 else counter, order[1..])
  }

  lemma NoDrops(counter: nat)
    ensures Drops(counter, []) == counter
  {
  }

  lemma {:induction false} DropsAppend(counter: nat, a: seq<nat>, b: seq<nat>)
    ensures Drops(counter, a + b) == Drops(Drops(counter, a), b)
    decreases |a|
  {
    if a == [] {
      assert a + b == b;
    } else {
      assert (a + b)[1..] == a[1..] + b;
      DropsAppend(if a[0] == counter > 0 then counter - 1 else counter, a[1..], b);
    }
  }

  lemma {:induction false} SkipToChild(e: Entries, h: nat, from: nat, i: nat)
    requires Tree(e) && 0 < h < 8 && 0 < from <= i <= |e|
    requires forall j | from <= j < i :: Parent(e, j) != h
    ensures ChildOrder(e, h, from) == ChildOrder(e, h, i)
    decreases i - from
  {
    hide BmAddress, BmParent, BmHub, Tree;
    if from < i {
      SkipToChild(e, h, from + 1, i);
    }
  }

  lemma HubNumber(e: Entries, i: nat)
    requires Tree(e) && LiveHub(e, i)
    ensures Parent(e, i) < Number(e, i) < 8
  {
  }

  /** The next child and then the rest, or nothing more. */
  lemma ChildOrderFrom(e: Entries, h: nat, i: nat)
    requires Tree(e) && 0 < h < 8 && 0 < i <= |e|
    ensures i == |e| ==> ChildOrder(e, h, i) == []
    ensures i < |e| && Parent(e, i) == h ==>
              var c := Cleared(e, Subtree(e, i));
              Tree(c) && ChildOrder(e, h, i) == HubOrder(e, i) + ChildOrder(c, h, i + 1)
  {
    hide BmAddress, BmParent, BmHub, Cleared, Subtree, Tree, HubOrder;
    if i < |e| {
      ClearedTree(e, Subtree(e, i));
    }
  }

  // ----- what each operation does to the pool

  /** Freeing an address: the root hub takes the whole pool with it, any other
      address exactly its subtree; address 0 finds an empty entry. */
  ghost predicate Freed(p: Pool, address: nat, p': Pool)
    requires Tree(p.entries) && |p.entries| > 0
  {
    var e := p.entries;
    if address == ROOT_HUB then
      && p'.entries == seq(|e|, j requires 0 <= j < |e| => if j == 0 then e[0] else INITIAL)
      && p'.hubCounter == 0
    else
      var i := IndexOf(e, address, 1);
      if i == 0 then p' == p
      else
        && p'.entries == Cleared(e, Subtree(e, i))
        && p'.hubCounter == Drops(p.hubCounter, HubOrder(e, i))
  }

  /** The state after AllocAddress and the address it returns, 0 for none. */
  function Alloc(p: Pool, parent: nat, isHub: bool, port: nat): (Pool, nat)
    requires |p.entries| > 0
  {
    var i := IndexOf(p.entries, 0, 1);
    if parent >= 128 || port > 7 || (isHub && p.hubCounter == 7) || i == 0 then (p, 0)
    else
      var address :=
        if parent == 0 then (if isHub then ROOT_HUB else ROOT_DEVICE)
        else Pack(isHub, BmAddress(parent), if isHub then p.hubCounter + 1 else port);
      (Pool(p.entries[i := p.entries[i].(devAddress := address)], p.hubCounter + if isHub then 1 else 0), address)
  }

  lemma {:induction false} UnderIsTransitive(e: Entries, i: nat, k: nat, h: nat)
    requires Tree(e) && LiveHub(e, k) && Under(e, i, Number(e, k)) && Under(e, k, h)
    ensures Under(e, i, h)
    decreases Parent(e, i)
  {
    hide BmAddress, BmParent, BmHub;
    if Parent(e, i) != Number(e, k) {
      var m :| LiveHub(e, m) && Number(e, m) == Parent(e, i) && Parent(e, m) < Parent(e, i) && Under(e, m, Number(e, k));
      UnderIsTransitive(e, m, k, h);
    }
  }

  lemma EmptyEntry()
    ensures !BmHub(0) && BmParent(0) == 0 && BmAddress(0) == 0
    ensures forall a: nat :: BmAddress(a) < 8
  {
  }

  /** Freeing one more child of h: what has been freed so far stays closed and
      stays under h. */
  lemma AddSubtree(e: Entries, freed: set<nat>, i: nat, h: nat)
    requires Tree(e) && ClosedDown(e, freed) && h > 0 && 0 < i < |e|
    requires forall j | j in freed :: j < |e| && Under(e, j, h)
    requires Parent(Cleared(e, freed), i) == h
    ensures Tree(Cleared(e, freed))
    ensures LiveHub(Cleared(e, freed), i) ==> Number(Cleared(e, freed), i) > h
    ensures var more := freed + Subtree(Cleared(e, freed), i);
      && ClosedDown(e, more)
      && Cleared(Cleared(e, freed), Subtree(Cleared(e, freed), i)) == Cleared(e, more)
      && forall j | j in more :: j < |e| && Under(e, j, h)
  {
    hide BmAddress, BmParent, BmHub;
    EmptyEntry();
    ClearedTree(e, freed);
    var c := Cleared(e, freed);
    var sub := Subtree(c, i);
    assert i !in freed && Under(e, i, h);
    if LiveHub(e, i) {
      var n := Number(e, i);
      forall j: nat
        ensures Under(c, j, n) <==> j !in freed && Under(e, j, n)
      {
        UnderAfterClearing(e, freed, j, n);
      }
      forall j | j in sub
        ensures j < |e| && Under(e, j, h)
      {
        if j != i {
          UnderIsTransitive(e, j, i, h);
        }
      }
    }
  }

  // ----- the implementation

  class AddressPoolImpl {
    const thePool: array<UsbDevice>
    var hubCounter: nat

    ghost predicate Valid()
      reads this
    {
      thePool.Length > 0 && hubCounter <= 7
    }

    ghost function Value(): Pool
      reads this, thePool
    {
      Pool(thePool[..], hubCounter)
    }

    constructor (maxDevices: nat)
      requires 0 < maxDevices <= 255
      ensures Valid() && fresh(thePool)
      ensures Value() == Pool(seq(maxDevices, _ => INITIAL), 0)
    {
      thePool := new UsbDevice[maxDevices](_ => INITIAL);
      hubCounter := 0;
    }

    method InitEntry(index: nat)
      requires index < thePool.Length
      modifies thePool
      ensures thePool[..] == old(thePool[..])[index := INITIAL]
      ensures thePool[index] == UsbDevice(0, 1, false, 0)
    {
      thePool[index] := UsbDevice(0, 1, false, 0);
    }

    method FindAddressIndex(address: nat) returns (index: nat)
      requires Valid()
      ensures index == IndexOf(thePool[..], address, 1)
    {
      for i := 1 to thePool.Length
        invariant IndexOf(thePool[..], address, 1) == IndexOf(thePool[..], address, i)
      {
        if thePool[i].devAddress == address {
          return i;
        }
      }
      index := 0;
    }

    method FindChildIndex(hub: nat, start: nat) returns (index: nat)
      requires Valid()
      ensures var first := if 0 < start < thePool.Length then start else 1;
        && (index == 0 || (first <= index < thePool.Length && Parent(thePool[..], index) == hub))
        && forall j | first <= j < thePool.Length && (index == 0 || j < index) :: Parent(thePool[..], j) != hub
    {
      var first := if start < 1 || start >= thePool.Length then 1 else start;
      for i := first to thePool.Length
        invariant forall j | first <= j < i :: Parent(thePool[..], j) != hub
      {
        if BmParent(thePool[i].devAddress) == hub {
          return i;
        }
      }
      index := 0;
    }

    method InitAllAddresses()
      requires Valid()
      modifies this, thePool
      ensures Value() == Pool(seq(thePool.Length, j requires 0 <= j < thePool.Length => if j == 0 then old(thePool[0]) else INITIAL), 0)
    {
      for i := 1 to thePool.Length
        invariant thePool[0] == old(thePool[0])
        invariant forall j | 1 <= j < i :: thePool[j] == INITIAL
      {
        InitEntry(i);
      }
      hubCounter := 0;
    }

    method GetUsbDevicePtr(addr: nat) returns (index: nat, found: bool)
      requires Valid()
      ensures if addr == 0 then found && index == 0
              else found == (IndexOf(thePool[..], addr, 1) != 0) && index == IndexOf(thePool[..], addr, 1)
    {
      if addr == 0 {
        return 0, true;
      }
      index := FindAddressIndex(addr);
      found := index != 0;
    }

    method AllocAddress(parent: nat, isHub: bool, port: nat) returns (address: nat)
      requires Valid()
      modifies this, thePool
      ensures Valid() && (Value(), address) == Alloc(old(Value()), parent, isHub, port)
    {
      if parent >= 128 || port > 7 {
        return 0;
      }
      if isHub && hubCounter == 7 {
        return 0;
      }
      var index := FindAddressIndex(0);
      if index == 0 {
        return 0;
      }
      if parent == 0 {
        if isHub {
          thePool[index] := thePool[index].(devAddress := 0x41);
          hubCounter := hubCounter + 1;
        } else {
          thePool[index] := thePool[index].(devAddress := 1);
        }
        return thePool[index].devAddress;
      }
      if isHub {
        hubCounter := hubCounter + 1;
        thePool[index] := thePool[index].(devAddress := Pack(true, BmAddress(parent), hubCounter));
      } else {
        thePool[index] := thePool[index].(devAddress := Pack(false, BmAddress(parent), port));
      }
      return thePool[index].devAddress;
    }

    method FreeAddressByIndex(index: nat)
      requires Valid() && index < thePool.Length && Tree(thePool[..])
      modifies this, thePool
      ensures Valid()
      ensures index == 0 ==> Value() == old(Value())
      ensures index != 0 ==> thePool[..] == Cleared(old(thePool[..]), Subtree(old(thePool[..]), index))
      ensures index != 0 ==> hubCounter == Drops(old(hubCounter), HubOrder(old(thePool[..]), index))
      decreases if LiveHub(thePool[..], index) then 8 - Number(thePool[..], index) else 0
    {
      if index == 0 {
        return;
      }
      hide BmAddress, BmParent, BmHub, Under;
      ghost var e := thePool[..];
      var uda := thePool[index].devAddress;
      ghost var freed: set<nat> := {};
      EmptyEntry();
      if BmHub(uda) {
        freed := FreeChildren(BmAddress(uda), index);
        DropsAppend(old(hubCounter), ChildOrder(e, BmAddress(uda), 1), [BmAddress(uda)]);
        if hubCounter == BmAddress(uda) {
          hubCounter := hubCounter - 1;
        }
      }
      assert freed + {index} == Subtree(e, index);
      InitEntry(index);
      assert thePool[..] == Cleared(e, freed + {index});
    }

    /** The loop of FreeAddressByIndex over the children of hub number h. */
    method FreeChildren(h: nat, ghost hub: nat) returns (ghost freed: set<nat>)
      requires Valid() && Tree(thePool[..]) && LiveHub(thePool[..], hub) && Number(thePool[..], hub) == h
      modifies this, thePool
      ensures Valid()
      ensures freed == set j | 0 <= j < thePool.Length && Under(old(thePool[..]), j, h)
      ensures thePool[..] == Cleared(old(thePool[..]), freed)
      ensures hubCounter == Drops(old(hubCounter), ChildOrder(old(thePool[..]), h, 1))
      decreases 8 - h, 0
    {
      hide BmAddress, BmParent, BmHub, Under, HubOrder, ChildOrder, Drops, Tree;
      ghost var e := thePool[..];
      freed := {};
      ghost var bound := 1;
      ghost var order: seq<nat> := [];
      EmptyEntry();
      assert Cleared(e, {}) == e;
      HubNumber(e, hub);
      NoDrops(hubCounter);
      var i := 1;
      while true
        invariant Valid() && freed <= set j | 0 <= j < |e| && Under(e, j, h)
        invariant thePool[..] == Cleared(e, freed) && ClosedDown(e, freed)
        invariant Tree(thePool[..]) && hubCounter == Drops(old(hubCounter), order)
        invariant 1 <= i <= bound <= thePool.Length
        invariant forall j | 1 <= j < bound :: Parent(thePool[..], j) != h
        invariant ChildOrder(e, h, 1) == order + ChildOrder(thePool[..], h, bound)
        decreases thePool.Length - bound
      {
        i := FindChildIndex(h, i);
        SkipToChild(thePool[..], h, bound, if i == 0 then thePool.Length else i);
        ChildOrderFrom(thePool[..], h, if i == 0 then thePool.Length else i);
        if i == 0 {
          assert order + [] == order;
          break;
        }
        ghost var c := thePool[..];
        AddSubtree(e, freed, i, h);
        FreeAddressByIndex(i);
        DropsAppend(old(hubCounter), order, HubOrder(c, i));
        order := order + HubOrder(c, i);
        freed := freed + Subtree(c, i);
        assert thePool[..][i] == INITIAL;
        forall j | 1 <= j < i + 1
          ensures Parent(thePool[..], j) != h
        {
          assert thePool[..][j] == INITIAL || (thePool[..][j] == c[j] && Parent(c, j) != h);
        }
        bound := i + 1;
      }
      assert forall j | Live(e, j) && Parent(e, j) == h :: j in freed by {
        assert forall j | Live(e, j) && j !in freed :: Parent(e, j) == Parent(thePool[..], j);
      }
      forall j | Under(e, j, h)
        ensures j in freed
      {
        ClosedSetHoldsSubtree(e, freed, h, j);
      }
    }

    method FreeAddress(addr: nat)
      requires Valid() && Tree(thePool[..])
      modifies this, thePool
      ensures Valid() && Freed(old(Value()), addr, Value())
    {
      if addr == 0x41 {
        InitAllAddresses();
        return;
      }
      var index := FindAddressIndex(addr);
      FreeAddressByIndex(index);
    }
  }
}
