/** Bytes and 16-bit words as bit strings, least significant bit first, and the
    CRC shift registers the way machine words hold them. */
module ByteBits {
  import opened ShiftRegister

  type Byte = bv8
  type Word = bv16

  function Mix(a: Word, b: Word): Word {
    a ^ b
  }

  function Widen(b: Byte): Word {
    b as Word
  }

  function Half(a: Word): Word {
    a >> 1
  }

  predicate Low(a: Word) {
    a & 1 == 1
  }

  function HalfBy(w: Word, k: nat): Word {
    if k == 0 then w else HalfBy(Half(w), k - 1)
  }

  /** Bit k, 0 the least significant. */
  predicate Bit(w: Word, k: nat) {
    Low(HalfBy(w, k))
  }

  /** The low n bits of a word. */
  function BitString(w: Word, n: nat): (r: Bits)
    ensures |r| == n
  {
    seq(n, k requires 0 <= k < n => Bit(w, k))
  }

  function Bits8(b: Byte): (r: Bits)
    ensures |r| == 8
  {
    BitString(Widen(b), 8)
  }

  function Bits16(w: Word): (r: Bits)
    ensures |r| == 16
  {
    BitString(w, 16)
  }

  /** The bits of a byte string in transmission order. */
  function BitsOf(bytes: seq<Byte>): (r: Bits)
    ensures |r| == 8 * |bytes|
  {
    if bytes == [] then [] else Bits8(bytes[0]) + BitsOf(bytes[1..])
  }

  lemma {:induction false} BitsOfAppend(a: seq<Byte>, b: seq<Byte>)
    ensures BitsOf(a + b) == BitsOf(a) + BitsOf(b)
  {
    hide Bits8;
    if a == [] {
      assert a + b == b;
    } else {
      assert (a + b)[0] == a[0] && (a + b)[1..] == a[1..] + b;
      BitsOfAppend(a[1..], b);
    }
  }

  lemma BitsOfOne(b: Byte)
    ensures BitsOf([b]) == Bits8(b)
  {
    assert BitsOf([b][1..]) == [];
  }

  // ----- single bits

  lemma HalfOfByte(b: Byte)
    ensures Widen(b >> 1) == Half(Widen(b))
  {
  }

  lemma HalfMix(a: Word, b: Word)
    ensures Half(Mix(a, b)) == Mix(Half(a), Half(b))
    ensures Low(Mix(a, b)) == (Low(a) != Low(b))
  {
  }

  lemma WidenMix(a: Byte, b: Byte)
    ensures Widen(a ^ b) == Mix(Widen(a), Widen(b))
  {
  }

  lemma {:induction false} MixBit(a: Word, b: Word, k: nat)
    ensures HalfBy(Mix(a, b), k) == Mix(HalfBy(a, k), HalfBy(b, k))
    ensures Bit(Mix(a, b), k) == (Bit(a, k) != Bit(b, k))
    decreases k
  {
    hide Mix, Half, Low;
    HalfMix(a, b);
    if k > 0 {
      MixBit(Half(a), Half(b), k - 1);
    }
  }

  lemma MixIsXor(a: Word, b: Word, n: nat)
    ensures BitString(Mix(a, b), n) == Xor(BitString(a, n), BitString(b, n))
  {
    hide Bit, Mix;
    forall k | 0 <= k < n
      ensures Bit(Mix(a, b), k) == (Bit(a, k) != Bit(b, k))
    {
      MixBit(a, b, k);
    }
  }

  lemma {:induction false} HalfByNext(w: Word, k: nat)
    ensures HalfBy(w, k + 1) == Half(HalfBy(w, k))
    decreases k
  {
    hide Half;
    if k > 0 {
      HalfByNext(Half(w), k - 1);
    }
  }

  lemma {:induction false} HalfByAdd(w: Word, j: nat, k: nat)
    ensures HalfBy(w, j + k) == HalfBy(HalfBy(w, j), k)
    decreases j
  {
    hide Half;
    if j > 0 {
      HalfByAdd(Half(w), j - 1, k);
    }
  }

  lemma ShiftsAdd(w: Word)
    ensures (w >> 1) >> 1 == w >> 2 && (w >> 2) >> 2 == w >> 4 && (w >> 4) >> 4 == w >> 8
  {
  }

  lemma HalfBy2(w: Word)
    ensures HalfBy(w, 2) == w >> 2
  {
    ShiftsAdd(w);
    assert HalfBy(w, 2) == HalfBy(w >> 1, 1);
    assert HalfBy(w >> 1, 1) == HalfBy((w >> 1) >> 1, 0);
  }

  lemma HalfBy4(w: Word)
    ensures HalfBy(w, 4) == w >> 4
  {
    hide HalfBy;
    HalfByAdd(w, 2, 2);
    HalfBy2(w);
    HalfBy2(w >> 2);
    ShiftsAdd(w);
  }

  lemma HalfBy8(w: Word)
    ensures HalfBy(w, 8) == w >> 8
  {
    hide HalfBy;
    HalfByAdd(w, 4, 4);
    HalfBy4(w);
    HalfBy4(w >> 4);
    ShiftsAdd(w);
  }

  lemma NothingAbove(w: Word)
    ensures HalfBy(w, 16) == 0 && !Bit(w, 16)
    ensures w & 0xFF00 == 0 ==> HalfBy(w, 8) == 0 && !Bit(w, 8)
  {
    HalfByAdd(w, 8, 8);
    HalfBy8(w);
    HalfBy8(w >> 8);
  }

  lemma HalvesDetermine(a: Word, b: Word)
    requires Low(a) == Low(b) && Half(a) == Half(b)
    ensures a == b
  {
  }

  lemma {:induction false} BitsDetermine(a: Word, b: Word, k: nat)
    requires k <= 16 && forall i | 0 <= i < 16 :: Bit(a, i) == Bit(b, i)
    ensures HalfBy(a, k) == HalfBy(b, k)
    decreases 16 - k
  {
    hide Half, Low, HalfBy;
    if k == 16 {
      NothingAbove(a);
      NothingAbove(b);
    } else {
      BitsDetermine(a, b, k + 1);
      HalfByNext(a, k);
      HalfByNext(b, k);
      assert Bit(a, k) == Bit(b, k);
      HalvesDetermine(HalfBy(a, k), HalfBy(b, k));
    }
  }

  lemma Bits16Injective(a: Word, b: Word)
    requires Bits16(a) == Bits16(b)
    ensures a == b
  {
    hide Bit;
    forall i | 0 <= i < 16
      ensures Bit(a, i) == Bit(b, i)
    {
      assert Bits16(a)[i] == Bits16(b)[i];
    }
    BitsDetermine(a, b, 0);
    assert HalfBy(a, 0) == a && HalfBy(b, 0) == b;
  }

  // ----- the register clocked in a machine word

  function Clock(poly: Word, s: Word): Word {
    if Low(s) then Mix(Half(s), poly) else Half(s)
  }

  function ClockBy(poly: Word, k: nat, s: Word): Word
    decreases k
  {
    if k == 0 then s else ClockBy(poly, k - 1, Clock(poly, s))
  }

  lemma ClockIsShift(poly: Word, s: Word, n: nat)
    requires 0 < n && !Bit(s, n)
    ensures BitString(Clock(poly, s), n) == Shift(BitString(poly, n), BitString(s, n))
  {
    hide Mix, Half, Low;
    forall k | 0 <= k < n
      ensures Bit(Clock(poly, s), k) == (Bit(s, k + 1) != (Bit(s, 0) && Bit(poly, k)))
    {
      MixBit(Half(s), poly, k);
    }
  }

  /** A register of n bits stays one when clocked. */
  lemma ClockStaysNarrow(poly: Word, s: Word, n: nat)
    requires 0 < n && !Bit(s, n) && HalfBy(s, n) == 0 && HalfBy(poly, n) == 0
    ensures HalfBy(Clock(poly, s), n) == 0 && !Bit(Clock(poly, s), n)
  {
    hide Mix, Half;
    HalfByNext(s, n);
    MixBit(Half(s), poly, n);
    ZeroFacts();
  }

  lemma ZeroFacts()
    ensures Half(0) == 0 && Mix(0, 0) == 0 && !Low(0)
  {
  }

  lemma {:induction false} ClockByIsShiftBy(poly: Word, k: nat, s: Word, n: nat)
    requires 0 < n && HalfBy(s, n) == 0 && HalfBy(poly, n) == 0
    ensures BitString(ClockBy(poly, k, s), n) == ShiftBy(BitString(poly, n), k, BitString(s, n))
    decreases k
  {
    hide Clock, HalfBy, BitString;
    if k > 0 {
      assert !Bit(s, n) by { ZeroFacts(); }
      ClockIsShift(poly, s, n);
      ClockStaysNarrow(poly, s, n);
      ClockByIsShiftBy(poly, k - 1, Clock(poly, s), n);
    }
  }

  /** What one table look-up, or eight turns of a bit-serial loop, must compute:
      the register after one more byte of the message. */
  lemma ByteStep(poly: Word, s: Byte, b: Byte, t: Byte)
    requires HalfBy(poly, 8) == 0 && Widen(t) == ClockBy(poly, 8, Widen(s ^ b))
    ensures Bits8(t) == Run(BitString(poly, 8), Bits8(s), Bits8(b))
  {
    hide Run, ShiftBy, ClockBy, BitString, HalfBy, Widen, Mix;
    RunIsShift(BitString(poly, 8), Bits8(s), Bits8(b));
    WidenMix(s, b);
    MixIsXor(Widen(s), Widen(b), 8);
    ByteIsNarrow(s ^ b);
    ClockByIsShiftBy(poly, 8, Widen(s ^ b), 8);
  }

  lemma ByteIsNarrow(b: Byte)
    ensures HalfBy(Widen(b), 8) == 0 && !Bit(Widen(b), 8)
  {
    NothingAbove(Widen(b));
  }

  lemma Bits8Injective(a: Byte, b: Byte)
    requires Bits8(a) == Bits8(b)
    ensures a == b
  {
    hide BitString, HalfBy, Widen;
    ByteIsNarrow(a);
    ByteIsNarrow(b);
    LowBitsDetermine(Widen(a), Widen(b));
    WidenInjective(a, b);
  }

  lemma WidenInjective(a: Byte, b: Byte)
    requires Widen(a) == Widen(b)
    ensures a == b
  {
  }

  lemma LowBitsDetermine(a: Word, b: Word)
    requires BitString(a, 8) == BitString(b, 8) && HalfBy(a, 8) == HalfBy(b, 8)
    ensures a == b
  {
    hide Bit, HalfBy;
    forall i | 0 <= i < 16
      ensures Bit(a, i) == Bit(b, i)
    {
      if i < 8 {
        assert BitString(a, 8)[i] == BitString(b, 8)[i];
      } else {
        HighBit(a, i - 8);
        HighBit(b, i - 8);
      }
    }
    assert Bits16(a) == Bits16(b);
    Bits16Injective(a, b);
  }

  lemma HighBit(w: Word, k: nat)
    ensures Bit(w, 8 + k) == Bit(HalfBy(w, 8), k)
  {
    HalfByAdd(w, 8, k);
  }
}
