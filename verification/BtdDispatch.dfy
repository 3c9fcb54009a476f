/** The dongle hands every packet to all its services, then runs them: one
    dispatch is a run of the world the histories speak of. */
module BtdDispatch {
  import opened Integers
  import opened HidMachine
  import opened HidHistory
  import opened HidServices

  function AfterAll(w: World, steps: seq<Step>): (r: World)
    requires forall k | 0 <= k < |steps| :: InRange(steps[k], |w.services|)
    ensures |r.services| == |w.services|
    decreases |steps|
  {
    if steps == [] then w
    else
      var before, last := AfterAll(w, steps[..|steps| - 1]), steps[|steps| - 1];
      assert InRange(last, |w.services|);
      After(before, last)
  }

  /** A packet or a Run for one of n services. */
  predicate InRange(step: Step, n: nat) {
    (step.Packet? || step.RunOf?) && step.i < n
  }

  /** The packet to the first k services, in the order of their slots. */
  function Packets(b: Buffer, elapsed: seq<bool>, k: nat): (r: seq<Step>)
    requires k <= |elapsed|
    ensures |r| == k && forall j | 0 <= j < k :: InRange(r[j], k)
  {
    seq(k, j requires 0 <= j < k => Packet(j, b, elapsed[j]))
  }

  function Runs(around: seq<Surroundings>, k: nat): (r: seq<Step>)
    requires k <= |around|
    ensures |r| == k && forall j | 0 <= j < k :: InRange(r[j], k)
  {
    seq(k, j requires 0 <= j < k => RunOf(j, around[j]))
  }

  lemma OneMoreStep(w: World, steps: seq<Step>, step: Step)
    requires forall k | 0 <= k < |steps + [step]| :: InRange((steps + [step])[k], |w.services|)
    ensures forall k | 0 <= k < |steps| :: InRange(steps[k], |w.services|)
    ensures AfterAll(w, steps + [step]) == After(AfterAll(w, steps), step)
  {
    assert forall k | 0 <= k < |steps| :: (steps + [step])[k] == steps[k];
    assert (steps + [step])[..|steps|] == steps;
  }

  /** Steps without a reset of the flag keep the histories truthful and bring at
      most one claim, none if one is in force. */
  lemma {:induction false} StepsClaimOnce(w: World, steps: seq<Step>)
    requires forall k | 0 <= k < |steps| :: InRange(steps[k], |w.services|)
    requires AllTruthful(w)
    ensures var w' := AfterAll(w, steps);
      && AllTruthful(w')
      && w'.resets == w.resets
      && TotalClaims(w'.services) <= TotalClaims(w.services) + if w.dongle.claimed then 0 else 1
    decreases |steps|
  {
    hide AllTruthful, TotalClaims, Acl, HidMachine.Run;
    StepsStayBounded(w, steps, TotalClaims(w.services) - w.resets - if w.dongle.claimed then 1 else 0);
    if steps != [] {
      var n := |steps| - 1;
      StepsClaimOnce(w, steps[..n]);
      StepKeepsHistory(AfterAll(w, steps[..n]), steps[n]);
    }
  }

  lemma {:induction false} StepsStayBounded(w: World, steps: seq<Step>, before: int)
    requires forall k | 0 <= k < |steps| :: InRange(steps[k], |w.services|)
    requires ClaimsBounded(w, before)
    ensures ClaimsBounded(AfterAll(w, steps), before)
    decreases |steps|
  {
    hide ClaimsBounded, After;
    if steps != [] {
      var n := |steps| - 1;
      StepsStayBounded(w, steps[..n], before);
      StepKeepsClaims(AfterAll(w, steps[..n]), steps[n], before);
    }
  }

  lemma {:induction false} DispatchInTwo(w: World, first: seq<Step>, second: seq<Step>)
    requires forall k | 0 <= k < |first + second| :: InRange((first + second)[k], |w.services|)
    ensures (forall k | 0 <= k < |first| :: InRange(first[k], |w.services|)) && forall k | 0 <= k < |second| :: InRange(second[k], |w.services|)
    ensures AfterAll(w, first + second) == AfterAll(AfterAll(w, first), second)
    decreases |second|
  {
    hide AfterAll, After;
    assert forall k | 0 <= k < |first| :: first[k] == (first + second)[k];
    assert forall k | 0 <= k < |second| :: second[k] == (first + second)[|first| + k];
    if second == [] {
      assert first + second == first;
      NoSteps(AfterAll(w, first));
    } else {
      var n := |second| - 1;
      assert second[..n] + [second[n]] == second && (first + second[..n]) + [second[n]] == first + second;
      DispatchInTwo(w, first, second[..n]);
      OneMoreStep(w, first + second[..n], second[n]);
      OneMoreStep(AfterAll(w, first), second[..n], second[n]);
    }
  }

  /** Every one of the first k services has handled the packet, on the dongle as
      those before it left it; the others have not. */
  lemma {:induction false} EveryoneHears(w: World, b: Buffer, elapsed: seq<bool>, k: nat)
    requires k <= |elapsed| == |w.services|
    ensures var r := AfterAll(w, Packets(b, elapsed, k));
      forall j | 0 <= j < |w.services| :: r.services[j] ==
        if j < k then Acl(w.services[j], AfterAll(w, Packets(b, elapsed, j)).dongle, b, elapsed[j]).0 else w.services[j]
    ensures k > 0 ==> var before := AfterAll(w, Packets(b, elapsed, k - 1));
      AfterAll(w, Packets(b, elapsed, k)).dongle == Acl(w.services[k - 1], before.dongle, b, elapsed[k - 1]).1
  {
    hide Acl, AfterAll;
    if k == 0 {
      NoSteps(w);
      assert Packets(b, elapsed, 0) == [];
    } else {
      EveryoneHears(w, b, elapsed, k - 1);
      var step := Packet(k - 1, b, elapsed[k - 1]);
      assert Packets(b, elapsed, k) == Packets(b, elapsed, k - 1) + [step];
      OneMoreStep(w, Packets(b, elapsed, k - 1), step);
    }
  }

  /** Likewise each service runs once, on the dongle the earlier ones left. */
  lemma {:induction false} EveryoneRuns(w: World, around: seq<Surroundings>, k: nat)
    requires k <= |around| == |w.services|
    ensures var r := AfterAll(w, Runs(around, k));
      forall j | 0 <= j < |w.services| :: r.services[j] ==
        if j < k then HidMachine.Run(w.services[j], AfterAll(w, Runs(around, j)).dongle, around[j]).0 else w.services[j]
    ensures k > 0 ==> var before := AfterAll(w, Runs(around, k - 1));
      AfterAll(w, Runs(around, k)).dongle == HidMachine.Run(w.services[k - 1], before.dongle, around[k - 1]).1
  {
    hide HidMachine.Run, AfterAll;
    if k == 0 {
      NoSteps(w);
      assert Runs(around, 0) == [];
    } else {
      EveryoneRuns(w, around, k - 1);
      var step := RunOf(k - 1, around[k - 1]);
      assert Runs(around, k) == Runs(around, k - 1) + [step];
      OneMoreStep(w, Runs(around, k - 1), step);
    }
  }

  class Dispatcher {
    const pBtd: Btd
    /** The registered services, in the order of their slots. */
    const services: seq<HidService>

    constructor (pBtd: Btd, services: seq<HidService>)
      requires forall i | 0 <= i < |services| :: services[i].pBtd == pBtd
      requires forall i, j | 0 <= i < j < |services| :: services[i] != services[j]
      ensures Valid() && this.pBtd == pBtd && this.services == services
    {
      this.pBtd, this.services := pBtd, services;
    }

    ghost predicate Valid() {
      && (forall i | 0 <= i < |services| :: services[i].pBtd == pBtd)
      && (forall i, j | 0 <= i < j < |services| :: services[i] != services[j])
    }

    ghost function Value(resets: nat): World
      reads pBtd, services
    {
      World(pBtd.Value(), seq(|services|, i requires 0 <= i < |services| reads services => services[i].Value()), resets)
    }

    /** ACL_event_task with what the transfer returned: a good packet goes to
        every service before any of them runs. */
    method ACLEventTask(rcode: nat, length: nat, b: Buffer, elapsed: seq<bool>, around: seq<Surroundings>, ghost resets: nat)
      requires Valid() && |elapsed| == |around| == |services|
      modifies pBtd, services
      ensures var packets := if rcode == 0 && length > 0 then Packets(b, elapsed, |services|) else [];
        Value(resets) == AfterAll(old(Value(resets)), packets + Runs(around, |services|))
    {
      hide AfterAll, Acl, HidMachine.Run;
      ghost var w, n := Value(resets), |services|;
      ghost var packets: seq<Step> := [];
      NoSteps(w);
      if rcode == 0 && length > 0 {
        for i := 0 to |services|
          invariant Value(resets) == AfterAll(w, Packets(b, elapsed, i))
        {
          ghost var step := Packet(i, b, elapsed[i]);
          assert Packets(b, elapsed, i + 1) == Packets(b, elapsed, i) + [step];
          OneMoreStep(w, Packets(b, elapsed, i), step);
          ghost var before := Value(resets);
          services[i].ACLData(b, elapsed[i]);
          assert Value(resets).services == before.services[i := services[i].Value()];
        }
        packets := Packets(b, elapsed, n);
      }
      assert packets + Runs(around, 0) == packets;
      for i := 0 to |services|
        invariant Value(resets) == AfterAll(w, packets + Runs(around, i))
      {
        ghost var step := RunOf(i, around[i]);
        assert packets + Runs(around, i + 1) == (packets + Runs(around, i)) + [step];
        OneMoreStep(w, packets + Runs(around, i), step);
        ghost var before := Value(resets);
        services[i].Run(around[i]);
        assert Value(resets).services == before.services[i := services[i].Value()];
      }
    }
  }

  lemma NoSteps(w: World)
    ensures AfterAll(w, []) == w
  {
  }
}
