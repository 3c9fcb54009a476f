/** Packets on the USB line: how often one is launched before the host gives up
    or is done, what an OUT transfer gets through, and what an IN transfer
    leaves in the caller's buffer. */
module UsbTransfer {
  import opened Chunks
  import opened Integers

  const HR_SUCCESS: nat := 0x00
  const HR_NAK: nat := 0x04
  const HR_TOGERR: nat := 0x06
  const HR_TIMEOUT: nat := 0x0E
  const RECEIVE_ERROR: nat := 0xF0
  const INVALID_MAX_PKT_SIZE: nat := 0xDA
  const RETRY_LIMIT: nat := 3

  // ----- the line

  /** What the line answers: `reply(k)` is the result register after launch k,
      and the transfer's deadline passes with launch number `deadline`. */
  datatype Line = Line(reply: nat -> nat, deadline: nat)

  function Code(line: Line, k: nat): nat {
    line.reply(k) % 16
  }

  /** Launches from `from` up to n that were answered with this code. */
  function Count(line: Line, code: nat, from: nat, n: nat): (r: nat)
    requires from <= n
    ensures r <= n - from
    decreases n
  {
    if from == n then 0
    else Count(line, code, from, n - 1) + if Code(line, n - 1) == code then 1 else 0
  }

  predicate Retried(code: nat, toggles: bool) {
    code == HR_NAK || code == HR_TIMEOUT || (toggles && code == HR_TOGERR)
  }

  predicate RetriedAt(line: Line, n: nat, toggles: bool)
    requires n > 0
  {
    Retried(Code(line, n - 1), toggles)
  }

  /** Limits are up: as many NAKs as allowed (0 allows any number), or as many
      timeouts. */
  predicate UsedUp(line: Line, from: nat, n: nat, nakLimit: nat)
    requires from < n
  {
    || (Code(line, n - 1) == HR_NAK && nakLimit > 0 && Count(line, HR_NAK, from, n) == nakLimit)
    || (Code(line, n - 1) == HR_TIMEOUT && Count(line, HR_TIMEOUT, from, n) == RETRY_LIMIT)
  }

  predicate Stops(line: Line, from: nat, n: nat, nakLimit: nat, toggles: bool)
    requires from < n
  {
    n >= line.deadline || !Retried(Code(line, n - 1), toggles) || UsedUp(line, from, n, nakLimit)
  }

  /** A packet first launched after `from` launches is launched until n: the
      first point where there is a reason to stop. */
  ghost predicate Settles(line: Line, from: nat, n: nat, nakLimit: nat, toggles: bool) {
    && from < n && Stops(line, from, n, nakLimit, toggles)
    && forall m | from < m < n :: !Stops(line, from, m, nakLimit, toggles)
  }

  /** Before the stop, there were fewer NAKs and timeouts than the limits. */
  lemma {:induction false} CountsBelowLimits(line: Line, from: nat, n: nat, nakLimit: nat, toggles: bool)
    requires from <= n && nakLimit > 0
    requires forall m | from < m <= n :: !Stops(line, from, m, nakLimit, toggles)
    ensures Count(line, HR_NAK, from, n) < nakLimit && Count(line, HR_TIMEOUT, from, n) < RETRY_LIMIT
    decreases n
  {
    if from < n {
      CountsBelowLimits(line, from, n - 1, nakLimit, toggles);
      assert !Stops(line, from, n, nakLimit, toggles);
    }
  }

  lemma {:induction false} CountsAddUp(line: Line, from: nat, n: nat)
    requires from <= n
    requires forall m | from < m <= n :: RetriedAt(line, m, false)
    ensures n - from == Count(line, HR_NAK, from, n) + Count(line, HR_TIMEOUT, from, n)
    decreases n
  {
    if from < n {
      CountsAddUp(line, from, n - 1);
      assert RetriedAt(line, n, false);
    }
  }

  /** Launch k was answered with a NAK (4) or a timeout (14), or, if they count, a
      toggle error (6), by the low four bits of the register. */
  predicate Busy(line: Line, k: nat, toggles: bool) {
    line.reply(k) % 16 == 4 || line.reply(k) % 16 == 14 || (toggles && line.reply(k) % 16 == 6)
  }

  /** The launches of [from, n) with this answer. */
  ghost function With(line: Line, code: nat, from: nat, n: nat): set<nat> {
    set k: nat | from <= k < n && line.reply(k) % 16 == code
  }

  lemma {:induction false} CountIsSize(line: Line, code: nat, from: nat, n: nat)
    requires from <= n
    ensures Count(line, code, from, n) == |With(line, code, from, n)|
    decreases n
  {
    if from < n {
      CountIsSize(line, code, from, n - 1);
      assert With(line, code, from, n) ==
             if line.reply(n - 1) % 16 == code then With(line, code, from, n - 1) + {n - 1} else With(line, code, from, n - 1);
    } else {
      assert With(line, code, from, n) == {};
    }
  }

  /** A packet is launched again exactly as long as the line is busy, the deadline
      is ahead, and there were fewer NAKs than the limit, if there is one, and
      fewer than three timeouts. */
  lemma SettlesExactlyWhen(line: Line, from: nat, n: nat, nakLimit: nat, toggles: bool)
    ensures Settles(line, from, n, nakLimit, toggles) <==>
      && from < n
      && (forall m | from < m < n :: GoesOn(line, from, m, nakLimit, toggles))
      && !GoesOn(line, from, n, nakLimit, toggles)
  {
    hide Stops, GoesOn;
    forall m | from < m <= n && forall k | from < k < m :: GoesOn(line, from, k, nakLimit, toggles)
      ensures Stops(line, from, m, nakLimit, toggles) <==> !GoesOn(line, from, m, nakLimit, toggles)
    {
      StopsExactlyWhen(line, from, m, nakLimit, toggles);
    }
    if from < n && ((forall m | from < m < n :: GoesOn(line, from, m, nakLimit, toggles)) || (forall m | from < m < n :: !Stops(line, from, m, nakLimit, toggles))) {
      SameUpTo(line, from, n, nakLimit, toggles);
    }
  }

  /** After launch number m the packet goes on to another. */
  ghost predicate GoesOn(line: Line, from: nat, m: nat, nakLimit: nat, toggles: bool)
    requires from < m
  {
    && m < line.deadline && Busy(line, m - 1, toggles)
    && (nakLimit > 0 ==> |With(line, 4, from, m)| < nakLimit)
    && |With(line, 14, from, m)| < 3
  }

  lemma {:induction false} SameUpTo(line: Line, from: nat, n: nat, nakLimit: nat, toggles: bool)
    requires from < n
    requires (forall m | from < m < n :: GoesOn(line, from, m, nakLimit, toggles)) || (forall m | from < m < n :: !Stops(line, from, m, nakLimit, toggles))
    requires forall m | from < m <= n && forall k | from < k < m :: GoesOn(line, from, k, nakLimit, toggles) ::
               Stops(line, from, m, nakLimit, toggles) <==> !GoesOn(line, from, m, nakLimit, toggles)
    ensures forall m | from < m < n :: GoesOn(line, from, m, nakLimit, toggles) && !Stops(line, from, m, nakLimit, toggles)
    decreases n
  {
    hide GoesOn, Stops;
    if n > from + 1 {
      SameUpTo(line, from, n - 1, nakLimit, toggles);
    }
  }

  /** Where the packet has gone on so far. */
  lemma StopsExactlyWhen(line: Line, from: nat, m: nat, nakLimit: nat, toggles: bool)
    requires from < m && forall k | from < k < m :: GoesOn(line, from, k, nakLimit, toggles)
    ensures Stops(line, from, m, nakLimit, toggles) <==> !GoesOn(line, from, m, nakLimit, toggles)
  {
    CountIsSize(line, HR_NAK, from, m);
    CountIsSize(line, HR_TIMEOUT, from, m);
    CountIsSize(line, HR_NAK, from, m - 1);
    CountIsSize(line, HR_TIMEOUT, from, m - 1);
    assert With(line, 4, from, from) == {} && With(line, 14, from, from) == {};
    assert m - 1 > from ==> GoesOn(line, from, m - 1, nakLimit, toggles);
  }

  /** With NAKs counted, a packet that toggle errors do not restart is launched
      at most nakLimit + RETRY_LIMIT - 1 times. */
  lemma LaunchBound(line: Line, from: nat, n: nat, nakLimit: nat)
    requires nakLimit > 0 && Settles(line, from, n, nakLimit, false)
    ensures n - from <= nakLimit + RETRY_LIMIT - 1
  {
    CountsBelowLimits(line, from, n - 1, nakLimit, false);
    forall m | from < m <= n - 1
      ensures RetriedAt(line, m, false)
    {
      assert !Stops(line, from, m, nakLimit, false);
    }
    CountsAddUp(line, from, n - 1);
  }

  /** RETRY_LIMIT - 1 timeouts, then only NAKs. */
  function WorstLine(nakLimit: nat): Line {
    Line(k => if k < 2 then HR_TIMEOUT else HR_NAK, nakLimit + 4)
  }

  lemma {:induction false} WorstLineCounts(nakLimit: nat, m: nat)
    ensures Count(WorstLine(nakLimit), HR_TIMEOUT, 0, m) == if m < 2 then m else 2
    ensures Count(WorstLine(nakLimit), HR_NAK, 0, m) == if m < 2 then 0 else m - 2
  {
    if m > 0 {
      WorstLineCounts(nakLimit, m - 1);
    }
  }

  /** The bound is reached. */
  lemma LaunchBoundIsTight(nakLimit: nat)
    requires nakLimit > 0
    ensures Settles(WorstLine(nakLimit), 0, nakLimit + RETRY_LIMIT - 1, nakLimit, false)
  {
    forall m | 0 < m <= nakLimit + 2
      ensures Stops(WorstLine(nakLimit), 0, m, nakLimit, false) <==> m == nakLimit + 2
    {
      WorstLineCounts(nakLimit, m);
    }
  }

  // ----- sending

  /** The packets OutTransfer cuts its data into. */
  function Packets(data: seq<uint8>, size: nat): (r: seq<seq<uint8>>)
    requires size > 0
    decreases |data|
  {
    if data == [] then []
    else if |data| <= size then [data]
    else [data[..size]] + Packets(data[size..], size)
  }

  lemma {:induction false} PacketsJoin(data: seq<uint8>, size: nat)
    requires size > 0
    ensures Joined(Packets(data, size)) == data
    decreases |data|
  {
    if |data| > size {
      PacketsJoin(data[size..], size);
      assert Packets(data, size)[1..] == Packets(data[size..], size);
    } else if data != [] {
      assert Joined([data]) == data + Joined([]);
    }
  }

  function Started(from: nat, ends: seq<nat>, i: nat): nat
    requires i <= |ends|
  {
    if i == 0 then from else ends[i - 1]
  }

  /** The result register after n launches. */
  function CodeAfter(line: Line, n: nat): nat {
    if n == 0 then HR_SUCCESS else Code(line, n - 1)
  }

  predicate Acked(line: Line, ends: seq<nat>, i: nat)
    requires i < |ends|
  {
    CodeAfter(line, ends[i]) == HR_SUCCESS
  }

  /** The i-th packet was given up because the deadline passed. */
  predicate Dropped(line: Line, ends: seq<nat>, i: nat)
    requires i < |ends|
  {
    !Acked(line, ends, i) && ends[i] >= line.deadline
  }

  /** Packet i was launched from the end of the one before it to its own. */
  ghost predicate PacketSettles(line: Line, from: nat, nakLimit: nat, ends: seq<nat>, i: nat)
    requires i < |ends|
  {
    Settles(line, Started(from, ends, i), ends[i], nakLimit, true)
  }

  /** A run over `total` packets, of which packet i was last launched as launch
      number ends[i]: each settled, none but the last was fatal, and the code
      returned is that of the very last launch. */
  ghost predicate Sent(line: Line, from: nat, nakLimit: nat, total: nat, ends: seq<nat>, rcode: nat) {
    && |ends| <= total
    && (forall i | 0 <= i < |ends| :: PacketSettles(line, from, nakLimit, ends, i))
    && (forall i | 0 <= i < |ends| - 1 :: Acked(line, ends, i) || Dropped(line, ends, i))
    && (|ends| < total ==> |ends| > 0 && !Acked(line, ends, |ends| - 1) && !Dropped(line, ends, |ends| - 1))
    && rcode == if ends == [] then HR_SUCCESS else CodeAfter(line, ends[|ends| - 1])
  }

  /** The packets the device acknowledged, in order. */
  function AckedPackets(line: Line, ends: seq<nat>, packets: seq<seq<uint8>>): seq<seq<uint8>>
    requires |ends| <= |packets|
    decreases |ends|
  {
    if ends == [] then []
    else
      var i := |ends| - 1;
      AckedPackets(line, ends[..i], packets) + if Acked(line, ends, i) then [packets[i]] else []
  }

  lemma {:induction false} AckedAll(line: Line, ends: seq<nat>, packets: seq<seq<uint8>>)
    requires |ends| <= |packets|
    ensures |AckedPackets(line, ends, packets)| <= |ends|
    ensures |AckedPackets(line, ends, packets)| == |ends| <==> forall i | 0 <= i < |ends| :: Acked(line, ends, i)
    ensures (forall i | 0 <= i < |ends| :: Acked(line, ends, i)) ==> AckedPackets(line, ends, packets) == packets[..|ends|]
    decreases |ends|
  {
    if ends != [] {
      var n := |ends| - 1;
      AckedAll(line, ends[..n], packets);
      assert forall i | 0 <= i < n :: Acked(line, ends[..n], i) <==> Acked(line, ends, i);
      assert packets[..n] + [packets[n]] == packets[..n + 1];
    }
  }

  lemma EndsGrow(line: Line, from: nat, nakLimit: nat, total: nat, ends: seq<nat>, rcode: nat, i: nat, j: nat)
    requires Sent(line, from, nakLimit, total, ends, rcode) && i <= j < |ends|
    ensures ends[i] <= ends[j] && (i < j ==> ends[i] < ends[j])
    decreases j - i
  {
    hide Stops;
    if i < j {
      EndsGrow(line, from, nakLimit, total, ends, rcode, i, j - 1);
      assert PacketSettles(line, from, nakLimit, ends, j);
    }
  }

  lemma LastAcked(line: Line, from: nat, nakLimit: nat, total: nat, ends: seq<nat>)
    requires ends != [] && Sent(line, from, nakLimit, total, ends, HR_SUCCESS)
    ensures |ends| == total && Acked(line, ends, |ends| - 1)
  {
    hide Stops;
    assert PacketSettles(line, from, nakLimit, ends, |ends| - 1);
  }

  lemma {:induction false} PacketsAreNotEmpty(data: seq<uint8>, size: nat)
    requires size > 0
    ensures forall p | p in Packets(data, size) :: p != []
    decreases |data|
  {
    if |data| > size {
      PacketsAreNotEmpty(data[size..], size);
    }
  }

  /** What is acknowledged is no longer than what was sent, and shorter if a
      packet that was not empty is missing. */
  lemma {:induction false} AckedLength(line: Line, ends: seq<nat>, packets: seq<seq<uint8>>)
    requires |ends| <= |packets| && forall p | p in packets :: p != []
    ensures |Joined(AckedPackets(line, ends, packets))| <= |Joined(packets[..|ends|])|
    ensures !(forall i | 0 <= i < |ends| :: Acked(line, ends, i)) ==>
              |Joined(AckedPackets(line, ends, packets))| < |Joined(packets[..|ends|])|
    decreases |ends|
  {
    hide Joined;
    if ends != [] {
      var n := |ends| - 1;
      AckedLength(line, ends[..n], packets);
      assert forall i | 0 <= i < n :: Acked(line, ends[..n], i) <==> Acked(line, ends, i);
      assert packets[..n] + [packets[n]] == packets[..n + 1];
      JoinedAppend(packets[..n], [packets[n]]);
      JoinedAppend(AckedPackets(line, ends[..n], packets), [packets[n]]);
      JoinedOne(packets[n]);
      assert packets[n] in packets;
      assert AckedPackets(line, ends[..n], packets) + [] == AckedPackets(line, ends[..n], packets);
    }
  }

  /** Every launch that was not in time any more succeeded. */
  ghost predicate LateLaunchesSucceed(line: Line, from: nat, n: nat) {
    forall k | from <= k < n && line.deadline <= k + 1 :: Code(line, k) == HR_SUCCESS
  }

  /** Launch k belongs to a packet, and if it was late it was that packet's last. */
  lemma {:induction false} LateLaunchIsLast(line: Line, from: nat, nakLimit: nat, total: nat, ends: seq<nat>, k: nat, j: nat)
    returns (i: nat)
    requires Sent(line, from, nakLimit, total, ends, HR_SUCCESS) && j < |ends|
    requires from <= k < ends[j] && line.deadline <= k + 1
    ensures i <= j && ends[i] == k + 1
    decreases j
  {
    assert PacketSettles(line, from, nakLimit, ends, j);
    if k < Started(from, ends, j) {
      i := LateLaunchIsLast(line, from, nakLimit, total, ends, k, j - 1);
    } else {
      i := j;
      assert k + 1 < ends[j] ==> !Stops(line, Started(from, ends, j), k + 1, nakLimit, true);
    }
  }

  lemma NoneDropped(line: Line, from: nat, nakLimit: nat, total: nat, ends: seq<nat>, i: nat)
    requires i < |ends| && Sent(line, from, nakLimit, total, ends, HR_SUCCESS)
    requires LateLaunchesSucceed(line, from, ends[|ends| - 1])
    ensures Acked(line, ends, i)
  {
    hide Settles;
    LastAcked(line, from, nakLimit, total, ends);
    EndsGrow(line, from, nakLimit, total, ends, HR_SUCCESS, i, |ends| - 1);
    EndAfterStart(line, from, nakLimit, total, ends, i);
    var k := ends[i] - 1;
    if line.deadline <= k + 1 {
      assert Code(line, k) == HR_SUCCESS;
    } else {
      assert !Dropped(line, ends, i);
    }
  }

  /** When OutTransfer returns 0, the device has acknowledged the whole data
      exactly when the line answered every launch past the deadline with
      success. */
  lemma ZeroMeansAllExactlyWhenLateLaunchesSucceed(line: Line, from: nat, nakLimit: nat, data: seq<uint8>, size: nat, ends: seq<nat>)
    requires size > 0 && ends != [] && Sent(line, from, nakLimit, |Packets(data, size)|, ends, HR_SUCCESS)
    ensures Joined(AckedPackets(line, ends, Packets(data, size))) == data <==>
              LateLaunchesSucceed(line, from, ends[|ends| - 1])
    ensures LateLaunchesSucceed(line, from, ends[|ends| - 1]) ==>
              AckedPackets(line, ends, Packets(data, size)) == Packets(data, size)
  {
    hide Settles, Packets, AckedPackets, Joined;
    var packets, last := Packets(data, size), ends[|ends| - 1];
    PacketsJoin(data, size);
    PacketsAreNotEmpty(data, size);
    AckedAll(line, ends, packets);
    AckedLength(line, ends, packets);
    LastAcked(line, from, nakLimit, |packets|, ends);
    assert packets[..|ends|] == packets;
    forall i | 0 <= i < |ends| && LateLaunchesSucceed(line, from, last)
      ensures Acked(line, ends, i)
    {
      NoneDropped(line, from, nakLimit, |packets|, ends, i);
    }
    if forall i | 0 <= i < |ends| :: Acked(line, ends, i) {
      forall k | from <= k < last && line.deadline <= k + 1
        ensures Code(line, k) == HR_SUCCESS
      {
        var i := LateLaunchIsLast(line, from, nakLimit, |packets|, ends, k, |ends| - 1);
        assert Acked(line, ends, i);
      }
    }
  }

  lemma {:induction false} EndAfterStart(line: Line, from: nat, nakLimit: nat, total: nat, ends: seq<nat>, i: nat)
    requires i < |ends| && Sent(line, from, nakLimit, total, ends, HR_SUCCESS)
    ensures from < ends[i]
    decreases i
  {
    hide Stops;
    assert PacketSettles(line, from, nakLimit, ends, i);
    if i > 0 {
      EndAfterStart(line, from, nakLimit, total, ends, i - 1);
    }
  }

  /** Returning 0 with the deadline still ahead, or just reached, the device has
      acknowledged exactly the data. */
  lemma ZeroInTimeMeansAll(line: Line, from: nat, nakLimit: nat, data: seq<uint8>, size: nat, ends: seq<nat>)
    requires size > 0 && Sent(line, from, nakLimit, |Packets(data, size)|, ends, HR_SUCCESS)
    requires ends != [] ==> ends[|ends| - 1] <= line.deadline
    ensures Joined(AckedPackets(line, ends, Packets(data, size))) == data
  {
    hide Settles, Packets, AckedPackets, Joined;
    if ends == [] {
      NothingSent(line, from, nakLimit, data, size);
    } else {
      LastAcked(line, from, nakLimit, |Packets(data, size)|, ends);
      ZeroMeansAllExactlyWhenLateLaunchesSucceed(line, from, nakLimit, data, size, ends);
    }
  }

  lemma NothingSent(line: Line, from: nat, nakLimit: nat, data: seq<uint8>, size: nat)
    requires size > 0 && Sent(line, from, nakLimit, |Packets(data, size)|, [], HR_SUCCESS)
    ensures Joined(AckedPackets(line, [], Packets(data, size))) == data
  {
  }

  /** A transfer that fails before its deadline got through exactly the packets
      before the failing one. */
  lemma FailureAcksPrefix(line: Line, from: nat, nakLimit: nat, data: seq<uint8>, size: nat, ends: seq<nat>, rcode: nat)
    requires size > 0 && Sent(line, from, nakLimit, |Packets(data, size)|, ends, rcode)
    requires rcode != HR_SUCCESS && ends != [] && ends[|ends| - 1] < line.deadline
    ensures AckedPackets(line, ends, Packets(data, size)) == Packets(data, size)[..|ends| - 1]
  {
    hide Settles, Packets;
    var n := |ends| - 1;
    forall i | 0 <= i < n
      ensures Acked(line, ends[..n], i)
    {
      EndsGrow(line, from, nakLimit, |Packets(data, size)|, ends, rcode, i, n);
      assert Acked(line, ends, i);
    }
    AckedAll(line, ends[..n], Packets(data, size));
  }

  /** A late NAK loses its packet though the transfer goes on to return 0. */
  lemma LateTransferLosesPacket()
    ensures var line := Line(k => if k == 0 then HR_NAK else HR_SUCCESS, 1);
      var packets := Packets([10, 20], 1);
      && Sent(line, 0, 0, |packets|, [1, 2], HR_SUCCESS)
      && AckedPackets(line, [1, 2], packets) == [[20]]
  {
    var line := Line(k => if k == 0 then HR_NAK else HR_SUCCESS, 1);
    var packets := Packets([10, 20], 1);
    assert [10, 20][1..] == [20] && [10, 20][..1] == [10];
    assert packets == [[10]] + Packets([20], 1);
    var ends := [1, 2];
    assert ends[..1] == [1] && ends[..0] == [];
    assert Code(line, 0) == HR_NAK && Code(line, 1) == HR_SUCCESS;
    assert AckedPackets(line, [1], packets) == [] by {
      assert [1][..0] == [];
    }
  }

  class Host {
    const line: Line
    var launched: nat
    /** The SIE's output FIFO, and the packets acknowledged so far. */
    var fifo: seq<uint8>
    var acked: seq<seq<uint8>>

    constructor (line: Line)
      ensures this.line == line && launched == 0 && acked == []
    {
      this.line, launched, fifo, acked := line, 0, [], [];
    }

    method Launch() returns (rcode: nat)
      modifies this`launched
      ensures launched == old(launched) + 1 && rcode == Code(line, old(launched))
    {
      rcode := line.reply(launched) % 16;
      launched := launched + 1;
    }

    method LaunchOut() returns (rcode: nat)
      modifies this`launched, this`acked
      ensures launched == old(launched) + 1 && rcode == Code(line, old(launched))
      ensures acked == old(acked) + if rcode == HR_SUCCESS then [fifo] else []
    {
      rcode := Launch();
      if rcode == HR_SUCCESS {
        acked := acked + [fifo];
      }
    }

    /** Launches a token until it is answered for good; the deadline is only
        looked at between launches, and 0 is returned if it never is in time. */
    method DispatchPkt(nakLimit: nat) returns (rcode: nat)
      modifies this`launched
      ensures old(launched) >= line.deadline ==> launched == old(launched) && rcode == HR_SUCCESS
      ensures old(launched) < line.deadline ==>
        Settles(line, old(launched), launched, nakLimit, false) && rcode == Code(line, launched - 1)
    {
      rcode := HR_SUCCESS;
      var retryCount, nakCount := 0, 0;
      ghost var from := launched;
      while launched < line.deadline
        invariant from <= launched
        invariant nakCount == Count(line, HR_NAK, from, launched) && retryCount == Count(line, HR_TIMEOUT, from, launched)
        invariant launched == from ==> rcode == HR_SUCCESS
        invariant launched > from ==> rcode == Code(line, launched - 1) && launched <= line.deadline
        invariant launched > from ==> Retried(Code(line, launched - 1), false) && !UsedUp(line, from, launched, nakLimit)
        invariant forall m | from < m < launched :: !Stops(line, from, m, nakLimit, false)
        decreases line.deadline - launched
      {
        assert launched > from ==> !Stops(line, from, launched, nakLimit, false);
        rcode := Launch();
        if rcode == HR_NAK {
          nakCount := nakCount + 1;
          if nakLimit > 0 && nakCount == nakLimit {
            return;
          }
        } else if rcode == HR_TIMEOUT {
          retryCount := retryCount + 1;
          if retryCount == RETRY_LIMIT {
            return;
          }
        } else {
          return;
        }
      }
    }

    /** The inner loop of OutTransfer on the packet in the FIFO; `fatal` is the
        jump to breakout. */
    method Resend(first: uint8, nakLimit: nat, code: nat) returns (rcode: nat, fatal: bool)
      requires launched > 0 && code == Code(line, launched - 1) && fifo != [] && fifo[0] == first
      modifies this
      ensures fifo == old(fifo) && Settles(line, old(launched) - 1, launched, nakLimit, true)
      ensures rcode == Code(line, launched - 1) && (code == HR_SUCCESS ==> rcode == HR_SUCCESS)
      ensures fatal <==> rcode != HR_SUCCESS && launched < line.deadline
      ensures acked == old(acked) + if rcode == HR_SUCCESS && code != HR_SUCCESS then [fifo] else []
    {
      rcode, fatal := code, false;
      var retryCount, nakCount := 0, 0;
      ghost var from := launched - 1;
      while rcode != HR_SUCCESS && launched < line.deadline
        invariant code == HR_SUCCESS ==> rcode == HR_SUCCESS
        invariant from < launched && rcode == Code(line, launched - 1) && fifo == old(fifo)
        invariant nakCount == Count(line, HR_NAK, from, launched - 1) && retryCount == Count(line, HR_TIMEOUT, from, launched - 1)
        invariant forall m | from < m < launched :: !Stops(line, from, m, nakLimit, true)
        invariant acked == old(acked) + if rcode == HR_SUCCESS && code != HR_SUCCESS then [fifo] else []
        decreases line.deadline - launched
      {
        if rcode == HR_NAK {
          nakCount := nakCount + 1;
          if nakLimit > 0 && nakCount == nakLimit {
            return rcode, true;
          }
        } else if rcode == HR_TIMEOUT {
          retryCount := retryCount + 1;
          if retryCount == RETRY_LIMIT {
            return rcode, true;
          }
        } else if rcode != HR_TOGERR {
          return rcode, true;
        }
        assert fifo[0 := first] == fifo;
        fifo := fifo[0 := first];
        rcode := LaunchOut();
      }
    }

    method SendPacket(packet: seq<uint8>, nakLimit: nat) returns (rcode: nat, fatal: bool)
      requires packet != []
      modifies this
      ensures Settles(line, old(launched), launched, nakLimit, true)
      ensures rcode == CodeAfter(line, launched)
      ensures fatal <==> rcode != HR_SUCCESS && launched < line.deadline
      ensures acked == old(acked) + if rcode == HR_SUCCESS then [packet] else []
    {
      fifo := packet;
      rcode := LaunchOut();
      ghost var sent := acked;
      rcode, fatal := Resend(packet[0], nakLimit, rcode);
      assert acked == sent || acked == sent + [packet];
    }

    method OutTransfer(maxPktSize: uint8, nakLimit: nat, data: seq<uint8>) returns (rcode: nat, ghost ends: seq<nat>)
      modifies this
      ensures maxPktSize < 1 || maxPktSize > 64 ==>
        rcode == 0xDA && ends == [] && launched == old(launched) && acked == old(acked)
      ensures 1 <= maxPktSize <= 64 && data == [] ==> rcode == 0 && launched == old(launched)
      ensures 1 <= maxPktSize <= 64 ==>
        var packets := Packets(data, maxPktSize);
        && Sent(line, old(launched), nakLimit, |packets|, ends, rcode)
        && launched == Started(old(launched), ends, |ends|)
        && acked == old(acked) + AckedPackets(line, ends, packets)
    {
      hide Settles, CodeAfter, Packets;
      ends := [];
      if maxPktSize < 1 || maxPktSize > 64 {
        return INVALID_MAX_PKT_SIZE, ends;
      }
      rcode := HR_SUCCESS;
      var p := 0;
      ghost var packets := Packets(data, maxPktSize);
      while p < |data|
        invariant p <= |data| && |ends| <= |packets| && packets[|ends|..] == Packets(data[p..], maxPktSize)
        invariant launched == Started(old(launched), ends, |ends|)
        invariant forall i | 0 <= i < |ends| :: PacketSettles(line, old(launched), nakLimit, ends, i)
        invariant forall i | 0 <= i < |ends| :: Acked(line, ends, i) || Dropped(line, ends, i)
        invariant rcode == if ends == [] then HR_SUCCESS else CodeAfter(line, ends[|ends| - 1])
        invariant acked == old(acked) + AckedPackets(line, ends, packets)
        decreases |data| - p
      {
        var n := if |data| - p >= maxPktSize then maxPktSize else |data| - p;
        assert packets[|ends|] == data[p..p + n] && packets[|ends| + 1..] == Packets(data[p + n..], maxPktSize) by {
          NextPacket(data, p, maxPktSize, packets[|ends|..]);
        }
        var fatal;
        rcode, fatal := SendPacket(data[p..p + n], nakLimit);
        ghost var before := ends;
        ends := ends + [launched];
        assert ends[..|before|] == before;
        forall i | 0 <= i < |ends|
          ensures PacketSettles(line, old(launched), nakLimit, ends, i)
        {
          if i < |before| {
            assert PacketSettles(line, old(launched), nakLimit, before, i);
          }
        }
        assert forall i | 0 <= i < |before| :: ends[i] == before[i] && Acked(line, ends, i) == Acked(line, before, i);
        if fatal {
          return;
        }
        p := p + n;
      }
      assert data[p..] == [];
      NoPackets(maxPktSize);
    }
  }

  lemma NoPackets(size: nat)
    requires size > 0
    ensures Packets([], size) == []
  {
  }

  lemma NextPacket(data: seq<uint8>, p: nat, size: nat, rest: seq<seq<uint8>>)
    requires 0 < size && p < |data| && rest == Packets(data[p..], size)
    ensures var n := if |data| - p >= size then size else |data| - p;
      rest != [] && rest[0] == data[p..p + n] && rest[1..] == Packets(data[p + n..], size)
  {
    var n := if |data| - p >= size then size else |data| - p;
    assert data[p..][..n] == data[p..p + n] && data[p..][n..] == data[p + n..];
  }
}
