/** The reflected CRC shift register that Maxim Application Note 27 (8 and 16
    bits) and section 5.2.1.6 of TS 07.10 (8 bits) define, as a register of
    bits: one definition for every width and feedback polynomial. */
module ShiftRegister {

  /** Bit strings, the bit that is shifted out next first. */
  type Bits = seq<bool>

  function Xor(a: Bits, b: Bits): (r: Bits)
    requires |b| <= |a|
    ensures |r| == |a|
  {
    seq(|a|, i requires 0 <= i < |a| => a[i] != (i < |b| && b[i]))
  }

  /** One clock with no input: shift, and feed the bit shifted out back through
      the polynomial. */
  function Shift(poly: Bits, s: Bits): (r: Bits)
    requires 0 < |poly| == |s|
    ensures |r| == |s|
  {
    seq(|s|, i requires 0 <= i < |s| => (i + 1 < |s| && s[i + 1]) != (s[0] && poly[i]))
  }

  function ShiftBy(poly: Bits, k: nat, s: Bits): (r: Bits)
    requires 0 < |poly| == |s|
    ensures |r| == |s|
    decreases k
  {
    if k == 0 then s else ShiftBy(poly, k - 1, Shift(poly, s))
  }

  /** The reference definition of a CRC: clock the message in bit by bit. */
  function Run(poly: Bits, s: Bits, message: Bits): (r: Bits)
    requires 0 < |poly| == |s|
    ensures |r| == |s|
    decreases message
  {
    if message == [] then s
    else Run(poly, Shift(poly, s[0 := s[0] != message[0]]), message[1..])
  }

  lemma {:induction false} RunAppend(poly: Bits, s: Bits, a: Bits, b: Bits)
    requires 0 < |poly| == |s|
    ensures Run(poly, s, a + b) == Run(poly, Run(poly, s, a), b)
    decreases a
  {
    hide Shift;
    if a == [] {
      assert a + b == b;
    } else {
      assert (a + b)[0] == a[0] && (a + b)[1..] == a[1..] + b;
      RunAppend(poly, Shift(poly, s[0 := s[0] != a[0]]), a[1..], b);
    }
  }

  /** An input bit takes part in the feedback only when it reaches the bottom,
      so up to a register's width of input may be added before the first clock. */
  lemma {:induction false} RunIsShift(poly: Bits, s: Bits, input: Bits)
    requires |input| <= |poly| == |s| && 0 < |s|
    ensures Run(poly, s, input) == ShiftBy(poly, |input|, Xor(s, input))
    decreases input
  {
    if input == [] {
      assert Xor(s, input) == s;
    } else {
      var first := s[0 := s[0] != input[0]];
      assert Xor(Shift(poly, first), input[1..]) == Shift(poly, Xor(s, input)) by {
        AddHighBits(poly, s, input);
      }
      RunIsShift(poly, Shift(poly, first), input[1..]);
    }
  }

  lemma AddHighBits(poly: Bits, s: Bits, input: Bits)
    requires 0 < |input| <= |poly| == |s|
    ensures Xor(Shift(poly, s[0 := s[0] != input[0]]), input[1..]) == Shift(poly, Xor(s, input))
  {
    var a := Xor(Shift(poly, s[0 := s[0] != input[0]]), input[1..]);
    var b := Shift(poly, Xor(s, input));
    forall i | 0 <= i < |s|
      ensures a[i] == b[i]
    {
      assert i + 1 < |input| ==> input[1..][i] == input[i + 1];
    }
  }

  // ----- error detection

  /** The polynomial feeds the top bit back, as every CRC polynomial does. */
  predicate Feedback(poly: Bits) {
    0 < |poly| && poly[|poly| - 1]
  }

  lemma DifferenceOf(a: Bits, b: Bits) returns (i: nat)
    requires |a| == |b| && a != b
    ensures i < |a| && a[i] != b[i]
  {
    i :| 0 <= i < |a| && a[i] != b[i];
  }

  lemma ShiftIsInjective(poly: Bits, a: Bits, b: Bits)
    requires Feedback(poly) && |a| == |b| == |poly| && a != b
    ensures Shift(poly, a) != Shift(poly, b)
  {
    var i := DifferenceOf(a, b);
    var k := if a[0] != b[0] then |poly| - 1 else i - 1;
    assert Shift(poly, a)[k] != Shift(poly, b)[k];
  }

  lemma {:induction false} ShiftByIsInjective(poly: Bits, k: nat, a: Bits, b: Bits)
    requires Feedback(poly) && |a| == |b| == |poly| && a != b
    ensures ShiftBy(poly, k, a) != ShiftBy(poly, k, b)
    decreases k
  {
    hide Shift;
    if k > 0 {
      ShiftIsInjective(poly, a, b);
      ShiftByIsInjective(poly, k - 1, Shift(poly, a), Shift(poly, b));
    }
  }

  /** Once two registers differ, equal input cannot make them agree again. */
  lemma {:induction false} DifferenceSurvives(poly: Bits, a: Bits, b: Bits, message: Bits)
    requires Feedback(poly) && |a| == |b| == |poly| && a != b
    ensures Run(poly, a, message) != Run(poly, b, message)
    decreases message
  {
    hide Shift;
    if message != [] {
      var a', b' := a[0 := a[0] != message[0]], b[0 := b[0] != message[0]];
      var i := DifferenceOf(a, b);
      assert a'[i] != b'[i];
      ShiftIsInjective(poly, a', b');
      DifferenceSurvives(poly, Shift(poly, a'), Shift(poly, b'), message[1..]);
    }
  }

  lemma XorIsInjective(s: Bits, a: Bits, b: Bits)
    requires |a| == |b| <= |s| && a != b
    ensures Xor(s, a) != Xor(s, b)
  {
    var i := DifferenceOf(a, b);
    assert Xor(s, a)[i] != Xor(s, b)[i];
  }

  /** Every error burst is detected: two messages that agree outside a window no
      wider than the register, and differ inside it, leave different registers.
      The window may lie anywhere, not only on a byte. */
  lemma BurstIsDetected(poly: Bits, s: Bits, front: Bits, sent: Bits, received: Bits, back: Bits)
    requires Feedback(poly) && |s| == |poly|
    requires |sent| == |received| <= |poly| && sent != received
    ensures Run(poly, s, front + sent + back) != Run(poly, s, front + received + back)
  {
    hide Run;
    var s' := Run(poly, s, front);
    RunAppend(poly, s, front, sent);
    RunAppend(poly, s, front, received);
    RunAppend(poly, s, front + sent, back);
    RunAppend(poly, s, front + received, back);
    ShortMessagesDiffer(poly, s', sent, received);
    DifferenceSurvives(poly, Run(poly, s', sent), Run(poly, s', received), back);
  }

  lemma ShortMessagesDiffer(poly: Bits, s: Bits, sent: Bits, received: Bits)
    requires Feedback(poly) && |s| == |poly|
    requires |sent| == |received| <= |poly| && sent != received
    ensures Run(poly, s, sent) != Run(poly, s, received)
  {
    hide Run, Xor, ShiftBy;
    RunIsShift(poly, s, sent);
    RunIsShift(poly, s, received);
    XorIsInjective(s, sent, received);
    ShiftByIsInjective(poly, |sent|, Xor(s, sent), Xor(s, received));
  }

  /** A register's width of input clears the register exactly when it equals the
      register: appending a message's CRC to it, and nothing else, leaves zero. */
  lemma OnlyOwnCrcClears(poly: Bits, s: Bits, check: Bits)
    requires Feedback(poly) && |s| == |check| == |poly|
    ensures Run(poly, s, check) == Zero(|s|) <==> check == s
  {
    RunIsShift(poly, s, check);
    ZeroStaysZero(poly, |check|);
    if check == s {
      assert Xor(s, check) == Zero(|s|);
    } else {
      XorIsInjective(s, check, s);
      assert Xor(s, s) == Zero(|s|);
      ShiftByIsInjective(poly, |check|, Xor(s, check), Zero(|s|));
    }
  }

  function Zero(width: nat): (z: Bits)
    ensures |z| == width
  {
    seq(width, _ => false)
  }

  lemma {:induction false} ZeroStaysZero(poly: Bits, k: nat)
    requires 0 < |poly|
    ensures ShiftBy(poly, k, Zero(|poly|)) == Zero(|poly|)
    decreases k
  {
    if k > 0 {
      assert Shift(poly, Zero(|poly|)) == Zero(|poly|);
      ZeroStaysZero(poly, k - 1);
    }
  }
}
