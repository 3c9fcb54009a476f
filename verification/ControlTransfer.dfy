/** IN transfers, the data stage of a control read, and the configuration
    descriptor that reaches the parser through them. */
module ControlTransfer {
  import opened Integers
  import opened UsbTransfer
  import DescriptorStream
  import DescriptorList
  import Parser = ConfigDescParser

  // ----- one IN transfer

  /** What one dispatched IN token comes back with. */
  datatype Answer = Answer(rcode: nat, dataAvailable: bool, packet: seq<uint8>)

  function Got(a: Answer): seq<uint8> {
    if a.rcode == HR_SUCCESS && a.dataAvailable then a.packet else []
  }

  /** The packets received by answers [from, n). */
  function Received(answers: seq<Answer>, from: nat, n: nat): seq<uint8>
    requires from <= n <= |answers|
    decreases n
  {
    if from == n then []
    else Received(answers, from, n - 1) + Got(answers[n - 1])
  }

  /** The byte count reported for them: each packet counts in full, but never
      for more than the whole transfer. */
  function Counted(answers: seq<Answer>, from: nat, n: nat, nbytes: nat): nat
    requires from <= n <= |answers|
    decreases n
  {
    if from == n then 0
    else Counted(answers, from, n - 1, nbytes) + Min(|Got(answers[n - 1])|, nbytes)
  }

  function Cut(s: seq<uint8>, n: nat): seq<uint8> {
    if |s| <= n then s else s[..n]
  }

  lemma {:induction false} CountedCoversReceived(answers: seq<Answer>, from: nat, n: nat, nbytes: nat)
    requires from <= n <= |answers|
    ensures Counted(answers, from, n, nbytes) <= |Received(answers, from, n)|
    ensures Min(Counted(answers, from, n, nbytes), nbytes) == Min(|Received(answers, from, n)|, nbytes)
    decreases n
  {
    if from < n {
      CountedCoversReceived(answers, from, n - 1, nbytes);
    }
  }

  /** Answer n - 1 ends the transfer well: a short packet, or enough bytes. */
  predicate Completes(answers: seq<Answer>, from: nat, n: nat, nbytes: nat, maxPktSize: nat)
    requires from < n <= |answers|
  {
    var a := answers[n - 1];
    a.rcode == HR_SUCCESS && a.dataAvailable &&
    (Min(|a.packet|, nbytes) < maxPktSize || Counted(answers, from, n, nbytes) >= nbytes)
  }

  predicate Fails(answers: seq<Answer>, n: nat)
    requires 0 < n <= |answers|
  {
    var a := answers[n - 1];
    a.rcode != HR_TOGERR && (a.rcode != HR_SUCCESS || !a.dataAvailable)
  }

  /** An IN transfer that starts after `from` answers takes them up to n: the
      first that completes it or fails it, or all there are. */
  ghost predicate Ends(answers: seq<Answer>, from: nat, n: nat, nbytes: nat, maxPktSize: nat) {
    && from <= n <= |answers|
    && (forall m | from < m < n :: !Completes(answers, from, m, nbytes, maxPktSize) && !Fails(answers, m))
    && (n < |answers| ==> from < n && (Completes(answers, from, n, nbytes, maxPktSize) || Fails(answers, n)))
  }

  /** What is returned when the answers up to n end badly: the code of the first
      one that fails, or the receive error if it came without data; a line that
      falls silent times out. */
  predicate FailedWith(answers: seq<Answer>, from: nat, n: nat, rcode: nat) {
    && from <= n <= |answers|
    && (forall k | from < k < n :: !Fails(answers, k))
    && if from < n && Fails(answers, n) then
         rcode == if answers[n - 1].rcode != 0 then answers[n - 1].rcode else 0xF0
       else n == |answers| && rcode == 0x0E
  }

  lemma OneMore(answers: seq<Answer>, from: nat, n: nat, nbytes: nat, maxPktSize: nat)
    requires from <= n < |answers|
    ensures Received(answers, from, n + 1) == Received(answers, from, n) + Got(answers[n])
    ensures Counted(answers, from, n + 1, nbytes) == Counted(answers, from, n, nbytes) + Min(|Got(answers[n])|, nbytes)
    ensures Completes(answers, from, n + 1, nbytes, maxPktSize) <==>
              answers[n].rcode == HR_SUCCESS && answers[n].dataAvailable &&
              (Min(|answers[n].packet|, nbytes) < maxPktSize || Counted(answers, from, n + 1, nbytes) >= nbytes)
  {
  }

  lemma CutAppend(before: seq<uint8>, packet: seq<uint8>, n: nat, nbytes: nat)
    requires |before| <= nbytes && n == Min(|packet|, nbytes - |before|)
    ensures Cut(before + packet, nbytes) == before + packet[..n]
  {
  }

  lemma CutShort(nbytes: nat)
    ensures forall s: seq<uint8> | |s| <= nbytes :: Cut(s, nbytes) == s
  {
  }

  lemma NoneYet(answers: seq<Answer>, from: nat, nbytes: nat)
    requires from <= |answers|
    ensures Received(answers, from, from) == [] && Counted(answers, from, from, nbytes) == 0
  {
  }

  /** `was` with its first bytes overwritten by `stored`. */
  ghost predicate Overlaid(now: seq<uint8>, stored: seq<uint8>, was: seq<uint8>) {
    && |stored| <= |was| == |now|
    && forall i | 0 <= i < |now| :: now[i] == if i < |stored| then stored[i] else was[i]
  }

  class InPipe {
    const answers: seq<Answer>
    var taken: nat

    constructor (answers: seq<Answer>)
      ensures this.answers == answers && taken == 0
    {
      this.answers, taken := answers, 0;
    }

    /** Dispatching a token; a line with no more answers times out. */
    method Dispatch() returns (a: Answer)
      requires taken <= |answers|
      modifies this
      ensures if old(taken) < |answers| then taken == old(taken) + 1 && a == answers[old(taken)]
              else taken == old(taken) && a == Answer(HR_TIMEOUT, false, [])
    {
      if taken == |answers| {
        return Answer(HR_TIMEOUT, false, []);
      }
      a := answers[taken];
      taken := taken + 1;
    }

    /** Reads n bytes out of the receive FIFO. */
    method BytesRd(fifo: seq<uint8>, n: nat, data: array<uint8>, at: nat)
      requires n <= |fifo| && at + n <= data.Length
      modifies data
      ensures forall i | 0 <= i < data.Length :: data[i] == if at <= i < at + n then fifo[i - at] else old(data[i])
    {
      forall i | 0 <= i < n {
        data[at + i] := fifo[i];
      }
    }

    /** Adds a packet to what the buffer holds, as far as it fits; the size it
        counts for does not look at how much fits. */
    method StorePacket(packet: seq<uint8>, nbytes: nat, data: array<uint8>, count: nat, ghost before: seq<uint8>, ghost was: seq<uint8>)
      returns (pktSize: nat)
      requires |before| == count <= nbytes <= data.Length && Overlaid(data[..], before, was)
      modifies data
      ensures pktSize == Min(|packet|, nbytes) && Overlaid(data[..], Cut(before + packet, nbytes), was)
    {
      pktSize := if |packet| > nbytes then nbytes else |packet|;
      var memLeft := nbytes - count;
      var n := if pktSize > memLeft then memLeft else pktSize;
      BytesRd(packet, n, data, count);
      CutAppend(before, packet, n, nbytes);
    }

    /** Returns the count it reports through nbytesptr; toggle errors are tried
        again for as long as they last. */
    method InTransfer(maxPktSize: nat, nbytes: uint16, data: array<uint8>) returns (rcode: nat, count: nat)
      requires taken <= |answers| && nbytes <= data.Length && nbytes < 0x8000
      modifies this, data
      ensures old(taken) <= taken <= |answers|
      ensures Ends(answers, old(taken), taken, nbytes, maxPktSize)
      ensures count == Counted(answers, old(taken), taken, nbytes)
      ensures Overlaid(data[..], Cut(Received(answers, old(taken), taken), nbytes), old(data[..]))
      ensures rcode != HR_TOGERR
      ensures rcode == HR_SUCCESS <==> old(taken) < taken && Completes(answers, old(taken), taken, nbytes, maxPktSize)
      ensures rcode != HR_SUCCESS ==> FailedWith(answers, old(taken), taken, rcode)
    {
      hide Counted, Received, Completes, Cut;
      ghost var from, was := taken, data[..];
      NoneYet(answers, from, nbytes);
      CutShort(nbytes);
      count := 0;
      while true
        invariant from <= taken <= |answers|
        invariant forall m | from < m <= taken :: !Completes(answers, from, m, nbytes, maxPktSize) && !Fails(answers, m)
        invariant count == Counted(answers, from, taken, nbytes) == |Received(answers, from, taken)| && count <= nbytes
        invariant Overlaid(data[..], Received(answers, from, taken), was)
        decreases |answers| - taken
      {
        ghost var before := Received(answers, from, taken);
        if taken == |answers| {
          return HR_TIMEOUT, count;
        }
        var a := Dispatch();
        OneMore(answers, from, taken - 1, nbytes, maxPktSize);
        assert Got(a) == [] ==> Received(answers, from, taken) == before;
        if a.rcode == HR_TOGERR {
          continue;
        }
        if a.rcode != HR_SUCCESS {
          return a.rcode, count;
        }
        if !a.dataAvailable {
          return RECEIVE_ERROR, count;
        }
        var pktSize := StorePacket(a.packet, nbytes, data, count, before, was);
        count := count + pktSize;
        if pktSize < maxPktSize || count >= nbytes {
          return HR_SUCCESS, count;
        }
      }
    }
  }

  lemma CountCanExceedRequest()
    ensures var a := Answer(HR_SUCCESS, true, [1, 2, 3, 4, 5, 6, 7, 8]);
      Ends([a, a], 0, 2, 10, 8) && Completes([a, a], 0, 2, 10, 8) && Counted([a, a], 0, 2, 10) == 16
  {
    var a := Answer(HR_SUCCESS, true, [1, 2, 3, 4, 5, 6, 7, 8]);
    assert Counted([a, a], 0, 1, 10) == 8;
  }

  // ----- a device that follows the protocol

  /** From answer k on, the device sends `rest` in packets of m bytes and ends
      with a shorter one, with toggle errors in between; after an error or its
      last packet anything may follow. */
  ghost predicate Delivers(answers: seq<Answer>, k: nat, rest: seq<uint8>, m: nat)
    decreases |answers| - k
  {
    k < |answers| ==>
      var a := answers[k];
      if a.rcode == HR_TOGERR then Delivers(answers, k + 1, rest, m)
      else if a.rcode == HR_SUCCESS && a.dataAvailable then
        a.packet == Cut(rest, m) && (|rest| >= m ==> Delivers(answers, k + 1, rest[m..], m))
      else true
  }

  predicate Multiple(n: nat, m: nat)
    requires m > 0
  {
    n == 0 || (n >= m && Multiple(n - m, m))
  }

  lemma MultipleOfNone(m: nat)
    requires m > 0
    ensures Multiple(0, m)
  {
  }

  lemma DeliversPacket(answers: seq<Answer>, k: nat, rest: seq<uint8>, m: nat)
    requires k < |answers| && Delivers(answers, k, rest, m)
    ensures var a := answers[k];
      && (a.rcode == HR_TOGERR ==> Delivers(answers, k + 1, rest, m))
      && (a.rcode == HR_SUCCESS && a.dataAvailable ==>
            a.packet == Cut(rest, m) && (|rest| >= m ==> Delivers(answers, k + 1, rest[m..], m)))
  {
  }

  lemma {:induction false} NextMultiple(c: nat, nbytes: nat, m: nat)
    requires m > 0 && Multiple(c, m)
    ensures Multiple(c + m, m)
    ensures Multiple(nbytes, m) && c < nbytes ==> c + m <= nbytes
  {
    if Multiple(nbytes, m) && 0 < c < nbytes {
      NextMultiple(c - m, nbytes - m, m);
    }
  }

  /** While a transfer from such a device goes on, it has taken whole packets. */
  lemma {:induction false} WholePackets(answers: seq<Answer>, from: nat, t: nat, nbytes: nat, m: nat, rest: seq<uint8>)
    requires from <= t <= |answers| && m > 0 && Delivers(answers, from, rest, m) && nbytes > 0
    requires forall k | from < k <= t :: !Completes(answers, from, k, nbytes, m) && !Fails(answers, k)
    ensures var c := Counted(answers, from, t, nbytes);
      && c <= |rest| && c < nbytes && Multiple(c, m)
      && Received(answers, from, t) == rest[..c] && Delivers(answers, t, rest[c..], m)
    decreases t
  {
    hide Fails, Completes, Received, Counted, Multiple, Delivers;
    NoneYet(answers, from, nbytes);
    if from == t {
      assert rest[0..] == rest && Multiple(0, m) by {
        MultipleOfNone(m);
      }
    } else {
      WholePackets(answers, from, t - 1, nbytes, m, rest);
      OneMore(answers, from, t - 1, nbytes, m);
      var c := Counted(answers, from, t - 1, nbytes);
      var a := answers[t - 1];
      NotFailed(answers, t);
      DeliversPacket(answers, t - 1, rest[c..], m);
      if a.rcode != HR_TOGERR {
        NextMultiple(c, nbytes, m);
        assert rest[c..][m..] == rest[c + m..] && rest[..c] + rest[c..][..m] == rest[..c + m];
      } else {
        assert Received(answers, from, t) == Received(answers, from, t - 1);
      }
    }
  }

  lemma NotFailed(answers: seq<Answer>, n: nat)
    requires 0 < n <= |answers| && !Fails(answers, n)
    ensures answers[n - 1].rcode == HR_TOGERR || (answers[n - 1].rcode == HR_SUCCESS && answers[n - 1].dataAvailable)
  {
  }

  lemma CutInTwo(rest: seq<uint8>, c: nat, m: nat)
    requires c <= |rest|
    ensures rest[..c] + Cut(rest[c..], m) == Cut(rest, c + m)
    ensures |Cut(rest[c..], m)| == Min(|rest| - c, m)
    ensures forall nbytes: nat :: |Cut(rest, nbytes)| == Min(|rest|, nbytes) && (|rest| <= nbytes ==> Cut(rest, nbytes) == rest)
  {
  }

  /** One transfer from such a device brings exactly what was asked for, or all
      that is left. */
  lemma TransferBringsRest(answers: seq<Answer>, from: nat, n: nat, nbytes: nat, m: nat, rest: seq<uint8>)
    requires from < n <= |answers| && 0 < m && 0 < nbytes && Delivers(answers, from, rest, m)
    requires Ends(answers, from, n, nbytes, m) && Completes(answers, from, n, nbytes, m)
    requires Multiple(nbytes, m) || |rest| <= nbytes
    ensures Received(answers, from, n) == Cut(rest, nbytes)
    ensures Counted(answers, from, n, nbytes) == |Cut(rest, nbytes)|
    ensures Multiple(nbytes, m) && |rest| >= nbytes ==> Delivers(answers, n, rest[nbytes..], m)
  {
    hide Fails, Received, Counted, Multiple, Delivers, Cut;
    WholePackets(answers, from, n - 1, nbytes, m, rest);
    OneMore(answers, from, n - 1, nbytes, m);
    var c := Counted(answers, from, n - 1, nbytes);
    NextMultiple(c, nbytes, m);
    DeliversPacket(answers, n - 1, rest[c..], m);
    CutInTwo(rest, c, m);
    if |rest[c..]| >= m {
      assert rest[c..][m..] == rest[c + m..];
      assert Multiple(nbytes, m) ==> c + m <= nbytes;
      assert c + m == nbytes;
    }
  }

  /** The count reported to the caller is the bytes stored exactly when the
      request is a multiple of the packet size, is below it, or is not exhausted:
      a last packet that does not fit is counted whole. */
  lemma CountIsStoredExactlyWhenPacketsFit(answers: seq<Answer>, from: nat, n: nat, nbytes: nat, m: nat, rest: seq<uint8>)
    requires from < n <= |answers| && 0 < m && 0 < nbytes && Delivers(answers, from, rest, m)
    requires Ends(answers, from, n, nbytes, m) && Completes(answers, from, n, nbytes, m)
    ensures |Cut(Received(answers, from, n), nbytes)| == Counted(answers, from, n, nbytes) <==>
              m > nbytes || Multiple(nbytes, m) || |rest| <= nbytes
  {
    hide Fails, Received, Counted, Delivers, Cut, Multiple, Ends, Completes;
    CountedIfCompleted(answers, from, n, nbytes, m, rest);
    StoredIsCounted(answers, from, n, nbytes);
  }

  lemma StoredIsCounted(answers: seq<Answer>, from: nat, n: nat, nbytes: nat)
    requires from <= n <= |answers|
    ensures |Cut(Received(answers, from, n), nbytes)| == Min(Counted(answers, from, n, nbytes), nbytes)
  {
    hide Received, Counted;
    CountedCoversReceived(answers, from, n, nbytes);
  }

  lemma CountedIfCompleted(answers: seq<Answer>, from: nat, n: nat, nbytes: nat, m: nat, rest: seq<uint8>)
    requires from < n <= |answers| && 0 < m && 0 < nbytes && Delivers(answers, from, rest, m)
    requires Ends(answers, from, n, nbytes, m) && Completes(answers, from, n, nbytes, m)
    ensures Counted(answers, from, n, nbytes) <= nbytes <==> m > nbytes || Multiple(nbytes, m) || |rest| <= nbytes
  {
    hide Fails, Received, Counted, Delivers, Cut, Multiple;
    WholePackets(answers, from, n - 1, nbytes, m, rest);
    OneMore(answers, from, n - 1, nbytes, m);
    var c := Counted(answers, from, n - 1, nbytes);
    NextMultiple(c, nbytes, m);
    SmallMultiple(c, m);
    DeliversPacket(answers, n - 1, rest[c..], m);
    CutInTwo(rest, c, m);
    if m <= nbytes && Counted(answers, from, n, nbytes) == nbytes && |rest| > nbytes {
      assert c + m == nbytes;
    }
  }

  lemma SmallMultiple(c: nat, m: nat)
    requires m > 0 && Multiple(c, m)
    ensures c < m ==> c == 0
  {
  }

  lemma OverlaidPrefix(now: seq<uint8>, stored: seq<uint8>, was: seq<uint8>)
    requires Overlaid(now, stored, was)
    ensures |stored| <= |now| && now[..|stored|] == stored
  {
  }

  // ----- when a data stage succeeds

  /** From answer k on, every transfer completes until `left` bytes have come or
      one is shorter than asked for. */
  ghost predicate StageSucceeds(answers: seq<Answer>, k: nat, left: nat, nbytes: nat, m: nat)
    decreases |answers| - k
  {
    || left == 0
    || exists n | k < n <= |answers| ::
         && Ends(answers, k, n, nbytes, m) && Completes(answers, k, n, nbytes, m)
         && (Counted(answers, k, n, nbytes) < nbytes || left <= nbytes || StageSucceeds(answers, n, left - nbytes, nbytes, m))
  }

  /** One transfer of a stage decides, or hands on, whether it succeeds. */
  lemma StageAfterTransfer(answers: seq<Answer>, k: nat, n: nat, left: nat, nbytes: nat, m: nat)
    requires k <= n <= |answers| && left > 0 && Ends(answers, k, n, nbytes, m)
    ensures StageSucceeds(answers, k, left, nbytes, m) <==>
      && k < n && Completes(answers, k, n, nbytes, m)
      && (Counted(answers, k, n, nbytes) < nbytes || left <= nbytes || StageSucceeds(answers, n, left - nbytes, nbytes, m))
  {
    hide Completes, Fails, Counted;
    forall n' | k < n' <= |answers| && Ends(answers, k, n', nbytes, m) && Completes(answers, k, n', nbytes, m)
      ensures n' == n
    {
      EndsOnce(answers, k, n, n', nbytes, m);
    }
  }

  lemma EndsOnce(answers: seq<Answer>, k: nat, n: nat, n': nat, nbytes: nat, m: nat)
    requires Ends(answers, k, n, nbytes, m) && Ends(answers, k, n', nbytes, m)
    requires k < n' && Completes(answers, k, n', nbytes, m)
    ensures n' == n
  {
    hide Completes, Fails;
  }

  lemma StageOver(answers: seq<Answer>, k: nat, nbytes: nat, m: nat)
    ensures StageSucceeds(answers, k, 0, nbytes, m)
  {
  }

  /** The device gets all of `rest` through, up to its last, shorter packet. */
  ghost predicate SendsAll(answers: seq<Answer>, k: nat, rest: seq<uint8>, m: nat)
    decreases |answers| - k
  {
    k < |answers| &&
    var a := answers[k];
    if a.rcode == HR_TOGERR then SendsAll(answers, k + 1, rest, m)
    else
      && a.rcode == HR_SUCCESS && a.dataAvailable && a.packet == Cut(rest, m)
      && (|rest| >= m ==> SendsAll(answers, k + 1, rest[m..], m))
  }

  /** A transfer from such a device that has not ended by answer t ends well. */
  lemma {:induction false} TransferCompletes(answers: seq<Answer>, from: nat, t: nat, nbytes: nat, m: nat, rest: seq<uint8>)
    returns (n: nat)
    requires from <= t <= |answers| && m > 0 && nbytes > 0
    requires forall k | from < k <= t :: !Completes(answers, from, k, nbytes, m) && !Fails(answers, k)
    requires var c := Counted(answers, from, t, nbytes);
      c <= |rest| && c < nbytes && Multiple(c, m) && SendsAll(answers, t, rest[c..], m)
    ensures from < n <= |answers| && Ends(answers, from, n, nbytes, m) && Completes(answers, from, n, nbytes, m)
    ensures Multiple(nbytes, m) && |rest| >= nbytes ==> SendsAll(answers, n, rest[nbytes..], m)
    decreases |answers| - t
  {
    hide Completes, Received, Counted, Multiple, Cut;
    var c, a := Counted(answers, from, t, nbytes), answers[t];
    OneMore(answers, from, t, nbytes, m);
    NextMultiple(c, nbytes, m);
    CutInTwo(rest, c, m);
    if |rest[c..]| >= m {
      assert rest[c..][m..] == rest[c + m..];
    }
    if Completes(answers, from, t + 1, nbytes, m) {
      n := t + 1;
    } else {
      n := TransferCompletes(answers, from, t + 1, nbytes, m, rest);
    }
  }

  /** A stage from a device that gets everything through succeeds. */
  lemma {:induction false} SendsAllSucceeds(answers: seq<Answer>, k: nat, left: nat, nbytes: nat, m: nat, rest: seq<uint8>)
    requires m > 0 && nbytes > 0 && SendsAll(answers, k, rest, m) && |rest| <= left
    requires Multiple(nbytes, m) || left <= nbytes
    ensures StageSucceeds(answers, k, left, nbytes, m)
    decreases |answers| - k
  {
    hide Completes, Fails, Received, Counted, Multiple, Cut, Ends;
    if left > 0 {
      NoneYet(answers, k, nbytes);
      MultipleOfNone(m);
      assert rest[0..] == rest;
      var n := TransferCompletes(answers, k, k, nbytes, m, rest);
      StageAfterTransfer(answers, k, n, left, nbytes, m);
      SendsAllDelivers(answers, k, rest, m);
      if left > nbytes {
        TransferBringsRest(answers, k, n, nbytes, m, rest);
        CutInTwo(rest, 0, nbytes);
        if |rest| >= nbytes {
          SendsAllSucceeds(answers, n, left - nbytes, nbytes, m, rest[nbytes..]);
        }
      }
    }
  }

  lemma {:induction false} SendsAllDelivers(answers: seq<Answer>, k: nat, rest: seq<uint8>, m: nat)
    requires SendsAll(answers, k, rest, m)
    ensures Delivers(answers, k, rest, m)
    decreases |answers| - k
  {
    if answers[k].rcode == HR_TOGERR {
      SendsAllDelivers(answers, k + 1, rest, m);
    } else if |rest| >= m {
      SendsAllDelivers(answers, k + 1, rest[m..], m);
    }
  }

  // ----- a control read

  lemma CompletedIsNoFailure(answers: seq<Answer>, from: nat, n: nat, nbytes: nat, m: nat)
    requires Ends(answers, from, n, nbytes, m)
    ensures from < n && Completes(answers, from, n, nbytes, m) ==> !Fails(answers, n)
    ensures forall k | from < k < n :: !Fails(answers, k)
  {
  }

  /** What a control read returns: the code of its setup, of the answer that
      failed its data stage, or of its status stage. */
  predicate ReadReturns(setup: nat, status: nat, succeeds: bool, answers: seq<Answer>, from: nat, n: nat, rcode: nat) {
    if setup != 0 then rcode == setup && n == from
    else if succeeds then rcode == status
    else FailedWith(answers, from, n, rcode)
  }

  function Touched(p: Parser.ConfigDescParser?): set<object> {
    if p == null then {} else {p, p.varBuffer, p.valParser, p.theSkipper}
  }

  /** One InTransfer of the data stage. */
  method NextChunk(pipe: InPipe, maxPktSize: nat, nbytes: uint16, data: array<uint8>, ghost rest: seq<uint8>)
    returns (rcode: nat, read: nat)
    requires pipe.taken <= |pipe.answers| && nbytes <= data.Length && 0 < nbytes < 0x8000 && maxPktSize > 0
    requires Delivers(pipe.answers, pipe.taken, rest, maxPktSize)
    requires Multiple(nbytes, maxPktSize) || |rest| <= nbytes
    modifies pipe, data
    ensures old(pipe.taken) <= pipe.taken <= |pipe.answers| && rcode != HR_TOGERR
    ensures rcode == 0 ==> old(pipe.taken) < pipe.taken && read == |Cut(rest, nbytes)| <= data.Length
    ensures rcode == 0 ==> data[..read] == Cut(rest, nbytes) && Overlaid(data[..], Cut(rest, nbytes), old(data[..]))
    ensures rcode == 0 && Multiple(nbytes, maxPktSize) && |rest| >= nbytes ==>
      Delivers(pipe.answers, pipe.taken, rest[nbytes..], maxPktSize)
    ensures Ends(pipe.answers, old(pipe.taken), pipe.taken, nbytes, maxPktSize)
    ensures rcode == 0 <==> old(pipe.taken) < pipe.taken && Completes(pipe.answers, old(pipe.taken), pipe.taken, nbytes, maxPktSize)
    ensures rcode == 0 ==> read == Counted(pipe.answers, old(pipe.taken), pipe.taken, nbytes)
    ensures rcode != 0 ==> FailedWith(pipe.answers, old(pipe.taken), pipe.taken, rcode)
  {
    hide Delivers, Multiple, Received, Counted, Ends, Completes, Overlaid, Cut;
    ghost var from, was := pipe.taken, data[..];
    rcode, read := pipe.InTransfer(maxPktSize, nbytes, data);
    if rcode == 0 {
      TransferBringsRest(pipe.answers, from, pipe.taken, nbytes, maxPktSize, rest);
      CutTwice(rest, nbytes);
      OverlaidPrefix(data[..], Cut(rest, nbytes), was);
    }
  }

  lemma CutIsPrefix(rest: seq<uint8>, nbytes: nat)
    ensures Cut(rest, nbytes) <= rest && |Cut(rest, nbytes)| == Min(|rest|, nbytes)
  {
  }

  lemma CutTwice(rest: seq<uint8>, nbytes: nat)
    ensures Cut(Cut(rest, nbytes), nbytes) == Cut(rest, nbytes)
  {
  }

  /** The parser, if there is one, is where `fed` takes it from state s and has
      made the calls that come with it. */
  ghost predicate Told(p: Parser.ConfigDescParser?, f: DescriptorStream.Filter, s: DescriptorStream.State,
      calls: seq<DescriptorStream.Call>, fed: seq<uint8>)
    reads Touched(p)
  {
    p != null ==>
      && p.Valid() && p.Filter() == f
      && var r := DescriptorStream.FeedAll(f, s, fed);
         p.Value() == r.state && p.calls == calls + r.calls
  }

  method Tell(p: Parser.ConfigDescParser?, chunk: seq<uint8>, ghost f: DescriptorStream.Filter, ghost s: DescriptorStream.State,
      ghost calls: seq<DescriptorStream.Call>, ghost fed: seq<uint8>)
    requires Told(p, f, s, calls, fed)
    modifies Touched(p)
    ensures Told(p, f, s, calls, fed + chunk)
  {
    hide DescriptorStream.FeedAll;
    if p != null {
      p.Parse(chunk);
      DescriptorStream.FeedAllAppend(f, s, fed, chunk);
    }
  }

  /** The data stage and the stages around it, for a read of `total` bytes that
      always asks for `nbytes`. `setup` and `status` are what the other two
      stages return, `stage` what the device has to send; `fed` is what has
      gone to the parser. */
  method CtrlReq(pipe: InPipe, maxPktSize: nat, setup: nat, status: nat, total: uint16, nbytes: uint16,
      data: array<uint8>, p: Parser.ConfigDescParser?, ghost stage: seq<uint8>,
      ghost f: DescriptorStream.Filter, ghost s: DescriptorStream.State, ghost calls: seq<DescriptorStream.Call>)
    returns (rcode: nat, ghost fed: seq<uint8>)
    requires pipe.taken <= |pipe.answers| && nbytes <= data.Length && 0 < nbytes < 0x8000 && maxPktSize > 0
    requires Told(p, f, s, calls, []) && (p != null ==> data != p.varBuffer)
    requires Delivers(pipe.answers, pipe.taken, stage, maxPktSize) && |stage| <= total
    requires Multiple(nbytes, maxPktSize) || total <= nbytes
    modifies pipe, data, Touched(p)
    ensures fed <= stage && (rcode == 0 ==> fed == stage)
    ensures rcode == 0 && 0 < total <= nbytes ==> Overlaid(data[..], stage, old(data[..]))
    ensures Told(p, f, s, calls, fed)
    ensures rcode == 0 <==>
      setup == 0 && status == 0 && StageSucceeds(pipe.answers, old(pipe.taken), total, nbytes, maxPktSize)
    ensures ReadReturns(setup, status, StageSucceeds(pipe.answers, old(pipe.taken), total, nbytes, maxPktSize),
                        pipe.answers, old(pipe.taken), pipe.taken, rcode)
  {
    hide Delivers, Multiple, Received, Counted, Completes, Overlaid, Told, StageSucceeds, Cut, Fails;
    fed := [];
    if setup != 0 {
      return setup, fed;
    }
    ghost var was := data[..];
    var left := total;
    assert stage[0..] == stage;
    while left > 0
      invariant pipe.taken <= |pipe.answers| && left == total - |fed|
      invariant fed <= stage && (left > 0 ==> Delivers(pipe.answers, pipe.taken, stage[|fed|..], maxPktSize))
      invariant fed == [] ==> data[..] == was && left == total
      invariant fed != [] && total <= nbytes ==> left == 0 && fed == stage && Overlaid(data[..], stage, was)
      invariant Told(p, f, s, calls, fed)
      invariant old(pipe.taken) <= pipe.taken && forall k | old(pipe.taken) < k <= pipe.taken :: !Fails(pipe.answers, k)
      invariant StageSucceeds(pipe.answers, pipe.taken, left, nbytes, maxPktSize)
        <==> StageSucceeds(pipe.answers, old(pipe.taken), total, nbytes, maxPktSize)
      decreases |pipe.answers| - pipe.taken
    {
      var read;
      ghost var rest, from := stage[|fed|..], pipe.taken;
      rcode, read := NextChunk(pipe, maxPktSize, nbytes, data, rest);
      StageAfterTransfer(pipe.answers, from, pipe.taken, left, nbytes, maxPktSize);
      CompletedIsNoFailure(pipe.answers, from, pipe.taken, nbytes, maxPktSize);
      if rcode == HR_TOGERR {
        continue;
      }
      if rcode != 0 {
        return rcode, fed;
      }
      CutIsPrefix(rest, nbytes);
      StageOver(pipe.answers, pipe.taken, nbytes, maxPktSize);
      var chunk := data[..read];
      assert stage == fed + rest;
      Tell(p, chunk, f, s, calls, fed);
      fed := fed + chunk;
      left := (left - read) % 0x1_0000;
      if read < nbytes {
        break;
      }
    }
    StageOver(pipe.answers, pipe.taken, nbytes, maxPktSize);
    rcode := status;
  }

  /** The total length a configuration descriptor announces. */
  function TotalLength(conf: seq<uint8>): uint16
    requires |conf| >= 4
  {
    conf[2] as int + 0x100 * conf[3] as int
  }

  lemma ChunksOf64(m: nat)
    requires m in {8, 16, 32, 64}
    ensures Multiple(64, m)
  {
    assert Multiple(64 - m, m) by {
      if m == 8 {
        assert Multiple(24, 8) && Multiple(48, 8);
      }
    }
  }

  /** Reads the first 9 bytes of a configuration for its total length, then all
      of it in chunks of 64 through the parser. `conf` is what the device has;
      it sends no more than it is asked for. */
  method GetConfDescr(first: InPipe, second: InPipe, maxPktSize: nat, setup1: nat, status1: nat, setup2: nat, status2: nat,
      p: Parser.ConfigDescParser, ghost conf: seq<uint8>)
    returns (rcode: nat)
    requires first.taken <= |first.answers| && second.taken <= |second.answers| && first != second
    requires p.Valid() && maxPktSize in {8, 16, 32, 64} && |conf| >= 9
    requires Delivers(first.answers, first.taken, conf[..9], maxPktSize)
    requires Delivers(second.answers, second.taken, Cut(conf, TotalLength(conf)), maxPktSize)
    modifies first, second, Touched(p)
    ensures p.Valid() && p.Filter() == old(p.Filter())
    ensures rcode == 0 ==>
      var r := DescriptorStream.FeedAll(p.Filter(), old(p.Value()), Cut(conf, TotalLength(conf)));
      p.Value() == r.state && p.calls == old(p.calls) + r.calls
    ensures rcode == 0 && |conf| <= conf[2] as int + 0x100 * (conf[3] as int) ==>
      p.calls == old(p.calls) + DescriptorStream.FeedAll(p.Filter(), old(p.Value()), conf).calls
    ensures rcode == 0 && old(p.Value().phase) == DescriptorStream.Gathering([]) ==>
      forall list: DescriptorList.Descriptors |
        Cut(conf, TotalLength(conf)) == DescriptorList.Serial(list) && DescriptorList.Settled(p.Filter(), list) ::
        p.calls == old(p.calls) + DescriptorList.Endpoints(p.Filter(), list)
    ensures rcode == 0 <==>
      && setup1 == 0 && status1 == 0 && StageSucceeds(first.answers, old(first.taken), 9, 9, maxPktSize)
      && setup2 == 0 && status2 == 0 && StageSucceeds(second.answers, old(second.taken), TotalLength(conf), 64, maxPktSize)
    ensures var got1 := StageSucceeds(first.answers, old(first.taken), 9, 9, maxPktSize);
      var got2 := StageSucceeds(second.answers, old(second.taken), TotalLength(conf), 64, maxPktSize);
      if setup1 != 0 || !got1 || status1 != 0 then
        && ReadReturns(setup1, status1, got1, first.answers, old(first.taken), first.taken, rcode)
        && second.taken == old(second.taken) && p.calls == old(p.calls)
      else ReadReturns(setup2, status2, got2, second.answers, old(second.taken), second.taken, rcode)
  {
    hide FailedWith, Delivers, Cut, StageSucceeds, DescriptorStream.FeedAll, DescriptorList.Serial, DescriptorList.Settled, DescriptorList.Endpoints;
    var buf := new uint8[64];
    ghost var fed, f, s, calls;
    f, s, calls := p.Filter(), p.Value(), p.calls;
    rcode, fed := CtrlReq(first, maxPktSize, setup1, status1, 9, 9, buf, null, conf[..9], f, s, calls);
    if rcode != 0 {
      return;
    }
    var total: uint16 := buf[2] as int + 0x100 * buf[3] as int;
    ghost var stage := Cut(conf, TotalLength(conf));
    Parser.FeedNothing(f, s, []);
    assert total == TotalLength(conf) && |stage| <= total by {
      CutLength(conf, TotalLength(conf));
    }
    ChunksOf64(maxPktSize);
    CutShort(total);
    rcode, fed := CtrlReq(second, maxPktSize, setup2, status2, total, 64, buf, p, stage, f, s, calls);
    if rcode == 0 && s.phase == DescriptorStream.Gathering([]) {
      forall list: DescriptorList.Descriptors | stage == DescriptorList.Serial(list) && DescriptorList.Settled(f, list)
        ensures p.calls == old(p.calls) + DescriptorList.Endpoints(f, list)
      {
        DescriptorList.CallbacksAreEndpoints(f, s.context, list);
      }
    }
  }

  lemma CutLength(s: seq<uint8>, n: nat)
    ensures |Cut(s, n)| <= n
  {
  }
}
