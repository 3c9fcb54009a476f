/** The CRCs of the OneWire library, each proved against the bit-serial shift
    register that defines it. */
module OneWireCrc {
  import opened ShiftRegister
  import opened ByteBits
  import opened CrcTables

  /** x^8 + x^5 + x^4 + 1 and x^16 + x^15 + x^2 + 1, reflected. */
  function Poly8(): (p: Bits)
    ensures |p| == 8
  {
    BitString(DALLAS_POLY, 8)
  }

  const POLY_16: Word := 0xA001

  function Poly16(): (p: Bits)
    ensures |p| == 16
  {
    BitString(POLY_16, 16)
  }

  /** The CRC-8 of a message by definition. */
  function Register8(message: Bits): (r: Bits)
    ensures |r| == 8
  {
    Run(Poly8(), Zero(8), message)
  }

  lemma PolynomialsFeedBack()
    ensures Feedback(Poly8()) && Feedback(Poly16())
    ensures HalfBy(DALLAS_POLY, 8) == 0
  {
    HalfBy8(DALLAS_POLY);
    HalfBy8(POLY_16);
    HalfByAdd(DALLAS_POLY, 4, 3);
    HalfBy4(DALLAS_POLY);
    HalfByAdd(POLY_16, 8, 7);
    HalfBy4(POLY_16 >> 8);
    HalfByAdd(POLY_16 >> 8, 4, 3);
    assert HalfBy(0x08, 3) == 0x01;
    assert HalfBy(0x0A, 3) == 0x01;
    assert Bit(DALLAS_POLY, 7);
    assert Bit(POLY_16, 15);
  }

  // ----- CRC-8

  /** The table-driven version. */
  method Crc8(addr: array<Byte>, len: nat) returns (crc: Byte)
    requires len <= addr.Length
    ensures Bits8(crc) == Register8(BitsOf(addr[..len]))
  {
    hide Run, BitString, Zero, DallasTable;
    crc := 0;
    ZeroByte();
    for i := 0 to len
      invariant Bits8(crc) == Register8(BitsOf(addr[..i]))
    {
      var b := addr[i];
      TableStep(crc, b);
      assert addr[..i + 1] == addr[..i] + [b];
      NextByte(addr[..i], b);
      crc := DallasTable(crc ^ b);
    }
  }

  lemma ZeroByte()
    ensures Bits8(0) == Zero(8) == Register8(BitsOf([]))
  {
    forall k | 0 <= k < 8
      ensures !Bit(Widen(0), k)
    {
      ZeroBits(k);
    }
  }

  lemma {:induction false} ZeroBits(k: nat)
    ensures HalfBy(0, k) == 0 && !Bit(0, k)
    decreases k
  {
    if k > 0 {
      ZeroBits(k - 1);
    }
  }

  lemma TableStep(crc: Byte, b: Byte)
    ensures Bits8(DallasTable(crc ^ b)) == Run(Poly8(), Bits8(crc), Bits8(b))
  {
    hide Run, BitString, DallasTable, ClockBy;
    PolynomialsFeedBack();
    DallasTableIsClocks(crc ^ b);
    ByteStep(DALLAS_POLY, crc, b, DallasTable(crc ^ b));
  }

  lemma NextByte(front: seq<Byte>, b: Byte)
    ensures Register8(BitsOf(front + [b])) == Run(Poly8(), Register8(BitsOf(front)), Bits8(b))
  {
    hide Run, BitString, Bits8;
    BitsOfAppend(front, [b]);
    BitsOfOne(b);
    RunAppend(Poly8(), Zero(8), BitsOf(front), Bits8(b));
  }

  /** The bit-serial version. */
  method Crc8Serial(addr: array<Byte>, len: nat) returns (crc: Byte)
    requires len <= addr.Length
    ensures Bits8(crc) == Register8(BitsOf(addr[..len]))
  {
    hide Run, BitString, Zero, HalfBy, Widen;
    crc := 0;
    ZeroByte();
    for i := 0 to len
      invariant Bits8(crc) == Register8(BitsOf(addr[..i]))
    {
      var inByte := addr[i];
      ghost var b, start := inByte, Bits8(crc);
      assert HalfBy(Widen(b), 0) == Widen(b) by { HalfByZero(b); }
      assert Run(Poly8(), start, Bits8(b)[..0]) == start by { NothingRun(start); }
      for k := 0 to 8
        invariant Bits8(crc) == Run(Poly8(), start, Bits8(b)[..k])
        invariant Widen(inByte) == HalfBy(Widen(b), k)
      {
        SerialStep(crc, inByte);
        OneMoreBit(start, b, k);
        HalfByNext(Widen(b), k);
        HalfOfByte(inByte);
        var mix := (crc ^ inByte) & 0x01;
        crc := crc >> 1;
        if mix != 0 {
          crc := crc ^ 0x8C;
        }
        inByte := inByte >> 1;
      }
      assert Bits8(b)[..8] == Bits8(b);
      assert addr[..i + 1] == addr[..i] + [b];
      NextByte(addr[..i], b);
    }
  }

  lemma HalfByZero(b: Byte)
    ensures HalfBy(Widen(b), 0) == Widen(b)
  {
  }

  lemma NothingRun(s: Bits)
    requires |s| == 8
    ensures forall b: Byte :: Run(Poly8(), s, Bits8(b)[..0]) == s
  {
  }

  lemma OneMoreBit(start: Bits, b: Byte, k: nat)
    requires |start| == 8 && k < 8
    ensures var s := Run(Poly8(), start, Bits8(b)[..k]);
      Run(Poly8(), start, Bits8(b)[..k + 1]) == Shift(Poly8(), s[0 := s[0] != Low(HalfBy(Widen(b), k))])
  {
    hide Widen, HalfBy, Low, Shift;
    var bit := Bits8(b)[k];
    assert Bits8(b)[..k + 1] == Bits8(b)[..k] + [bit];
    RunAppend(Poly8(), start, Bits8(b)[..k], [bit]);
    var s := Run(Poly8(), start, Bits8(b)[..k]);
    assert Run(Poly8(), s, [bit]) == Run(Poly8(), Shift(Poly8(), s[0 := s[0] != bit]), [bit][1..]);
  }

  /** One turn of the inner loop is one clock of the register with the low bit
      of the input byte. */
  lemma SerialStep(crc: Byte, inByte: Byte)
    ensures var shifted := if (crc ^ inByte) & 0x01 != 0 then (crc >> 1) ^ 0x8C else crc >> 1;
      Bits8(shifted) == Shift(Poly8(), Bits8(crc)[0 := Bits8(crc)[0] != Low(Widen(inByte))])
  {
    hide Clock, HalfBy, Low, Shift;
    var shifted := if (crc ^ inByte) & 0x01 != 0 then (crc >> 1) ^ 0x8C else crc >> 1;
    var entered := crc ^ (inByte & 1);
    SerialClock(crc, inByte, shifted);
    ByteIsNarrow(entered);
    ClockIsShift(DALLAS_POLY, Widen(entered), 8);
    WidenMix(crc, inByte & 1);
    OneBit(inByte);
    EnterBit(crc, inByte & 1, entered);
  }

  lemma SerialClock(crc: Byte, inByte: Byte, shifted: Byte)
    requires shifted == if (crc ^ inByte) & 0x01 != 0 then (crc >> 1) ^ 0x8C else crc >> 1
    ensures Widen(shifted) == Clock(DALLAS_POLY, Widen(crc ^ (inByte & 1)))
  {
  }

  /** Adding a value with at most the lowest bit set flips at most bit 0. */
  lemma EnterBit(crc: Byte, bit: Byte, entered: Byte)
    requires Widen(entered) == Mix(Widen(crc), Widen(bit)) && Half(Widen(bit)) == 0
    ensures Bits8(entered) == Bits8(crc)[0 := Bits8(crc)[0] != Low(Widen(bit))]
  {
    hide Low, Half, Mix, Widen;
    forall k | 0 <= k < 8
      ensures Bit(Mix(Widen(crc), Widen(bit)), k) == (Bit(Widen(crc), k) != (k == 0 && Low(Widen(bit))))
    {
      MixBit(Widen(crc), Widen(bit), k);
      if k > 0 {
        ZeroBits(k - 1);
      }
    }
  }

  lemma OneBit(inByte: Byte)
    ensures Half(Widen(inByte & 1)) == 0 && Low(Widen(inByte & 1)) == Low(Widen(inByte))
  {
  }

  // ----- what the CRC-8 promises

  /** Appending a byte to a message clears the register exactly when the byte is
      the message's own CRC. */
  lemma OnlyOwnCrc8Clears(message: seq<Byte>, check: Byte)
    ensures Register8(BitsOf(message + [check])) == Zero(8) <==> Bits8(check) == Register8(BitsOf(message))
  {
    hide Run, BitString, Zero, Bits8, Feedback;
    PolynomialsFeedBack();
    NextByte(message, check);
    OnlyOwnCrcClears(Poly8(), Register8(BitsOf(message)), Bits8(check));
  }

  /** Two messages that differ only inside a window of at most eight bits, on
      byte boundaries or not, have different CRCs. */
  lemma Crc8DetectsBursts(a: seq<Byte>, b: seq<Byte>, front: Bits, sent: Bits, received: Bits, back: Bits)
    requires BitsOf(a) == front + sent + back && BitsOf(b) == front + received + back
    requires |sent| == |received| <= 8 && sent != received
    ensures Register8(BitsOf(a)) != Register8(BitsOf(b))
  {
    hide Run, BitString, Feedback;
    PolynomialsFeedBack();
    BurstIsDetected(Poly8(), Zero(8), front, sent, received, back);
  }

  // ----- CRC-16

  /** The table oddparity for a nibble n. */
  function OddParity(n: Word): Word {
    match n
    case 0 => 0 case 1 => 1 case 2 => 1 case 3 => 0 case 4 => 1 case 5 => 0 case 6 => 0 case 7 => 1
    case 8 => 1 case 9 => 0 case 10 => 0 case 11 => 1 case 12 => 0 case 13 => 1 case 14 => 1 case _ => 0
  }

  method Crc16(input: array<Byte>, len: nat, start: Word) returns (crc: Word)
    requires len <= input.Length
    ensures Bits16(crc) == Register16(start, BitsOf(input[..len]))
  {
    hide Run, BitString, ParityStep, Fold, Widen, Mix;
    crc := start;
    NoMessage16(start);
    for i := 0 to len
      invariant Bits16(crc) == Register16(start, BitsOf(input[..i]))
    {
      ghost var b := input[i];
      Word16Step(crc, b);
      assert input[..i + 1] == input[..i] + [b];
      NextByte16(start, input[..i], b);
      FoldIsParityStep(crc, b);
      crc := Crc16Byte(crc, input[i]);
    }
  }

  /** The loop body of crc16. */
  method Crc16Byte(start: Word, b: Byte) returns (crc: Word)
    ensures crc == Fold(((b as Word) ^ start) & 0xFF, start >> 8)
  {
    hide Fed, Mix;
    var cdata := b as Word;
    cdata := (cdata ^ start) & 0xFF;
    crc := FeedParity(cdata, start >> 8);
    cdata := cdata << 6;
    crc := Mix(crc, cdata);
    cdata := cdata << 1;
    crc := Mix(crc, cdata);
  }

  method FeedParity(cdata: Word, shifted: Word) returns (crc: Word)
    ensures crc == Fed(cdata, shifted)
  {
    hide OddParity;
    crc := shifted;
    if OddParity(cdata & 0x0F) ^ OddParity(cdata >> 4) != 0 {
      crc := crc ^ 0xC001;
    }
  }

  /** The CRC-16 of a message by definition. */
  function Register16(start: Word, message: Bits): (r: Bits)
    ensures |r| == 16
  {
    Run(Poly16(), Bits16(start), message)
  }

  lemma NoMessage16(start: Word)
    ensures Register16(start, BitsOf([])) == Bits16(start)
  {
  }

  lemma NextByte16(start: Word, front: seq<Byte>, b: Byte)
    ensures Register16(start, BitsOf(front + [b])) == Run(Poly16(), Register16(start, BitsOf(front)), Bits8(b))
  {
    hide Run, BitString, Bits8;
    BitsOfAppend(front, [b]);
    BitsOfOne(b);
    RunAppend(Poly16(), Bits16(start), BitsOf(front), Bits8(b));
  }

  /** The loop body as one expression of the register with the byte added. */
  function ParityStep(y: Word): Word {
    Fold(y & 0xFF, y >> 8)
  }

  function Fold(d: Word, high: Word): Word {
    Mix(Mix(Fed(d, high), d << 6), (d << 6) << 1)
  }

  /** The shifted register with the parity of the low byte fed back. */
  function Fed(d: Word, high: Word): Word {
    if OddParity(d & 0x0F) ^ OddParity(d >> 4) != 0 then high ^ 0xC001 else high
  }

  /** Only the low byte of the register meets the message byte. */
  lemma FoldIsParityStep(crc: Word, b: Byte)
    ensures Fold(((b as Word) ^ crc) & 0xFF, crc >> 8) == ParityStep(Mix(crc, Widen(b)))
  {
    hide Fold, Mix, Widen;
    SameAddedByte(crc, b);
  }

  lemma SameAddedByte(crc: Word, b: Byte)
    ensures ((b as Word) ^ crc) & 0xFF == Mix(crc, Widen(b)) & 0xFF
    ensures crc >> 8 == Mix(crc, Widen(b)) >> 8
  {
  }

  lemma Word16Step(crc: Word, b: Byte)
    ensures Bits16(ParityStep(Mix(crc, Widen(b)))) == Run(Poly16(), Bits16(crc), Bits8(b))
  {
    hide Run, ShiftBy, ClockBy, ParityStep, HalfBy, Widen, Mix;
    var y := Mix(crc, Widen(b));
    RunIsShift(Poly16(), Bits16(crc), Bits8(b));
    XorByte(crc, b);
    ParityStepIsClocks(y);
    NothingAbove(y);
    NothingAbove(POLY_16);
    ClockByIsShiftBy(POLY_16, 8, y, 16);
  }

  lemma XorByte(crc: Word, b: Byte)
    ensures Xor(Bits16(crc), Bits8(b)) == Bits16(Mix(crc, Widen(b)))
  {
    hide Mix, Widen, Bit;
    forall k | 0 <= k < 16
      ensures Bit(Mix(crc, Widen(b)), k) == (Bit(crc, k) != (k < 8 && Bit(Widen(b), k)))
    {
      MixBit(crc, Widen(b), k);
      if k >= 8 {
        HighBit(Widen(b), k - 8);
        ByteIsNarrow(b);
        ZeroBits(k - 8);
      }
    }
  }

  lemma ClockDefinition(s: Word)
    ensures Clock(POLY_16, s) == if s & 1 == 1 then (s >> 1) ^ 0xA001 else s >> 1
  {
  }

  lemma ParityOfNibble(n: Word)
    requires n <= 15
    ensures OddParity(n) == (n ^ (n >> 1) ^ (n >> 2) ^ (n >> 3)) & 1
  {
  }

  /** Eight clocks, written out, collapse to a parity and two shifts. */
  lemma ParityTrick(y: Word, y1: Word, y2: Word, y3: Word, y4: Word, y5: Word, y6: Word, y7: Word, y8: Word)
    requires y1 == if y & 1 == 1 then (y >> 1) ^ 0xA001 else y >> 1
    requires y2 == if y1 & 1 == 1 then (y1 >> 1) ^ 0xA001 else y1 >> 1
    requires y3 == if y2 & 1 == 1 then (y2 >> 1) ^ 0xA001 else y2 >> 1
    requires y4 == if y3 & 1 == 1 then (y3 >> 1) ^ 0xA001 else y3 >> 1
    requires y5 == if y4 & 1 == 1 then (y4 >> 1) ^ 0xA001 else y4 >> 1
    requires y6 == if y5 & 1 == 1 then (y5 >> 1) ^ 0xA001 else y5 >> 1
    requires y7 == if y6 & 1 == 1 then (y6 >> 1) ^ 0xA001 else y6 >> 1
    requires y8 == if y7 & 1 == 1 then (y7 >> 1) ^ 0xA001 else y7 >> 1
    ensures var d := y & 0xFF;
      var l, h := d & 0x0F, d >> 4;
      var odd := ((l ^ (l >> 1) ^ (l >> 2) ^ (l >> 3)) & 1) ^ ((h ^ (h >> 1) ^ (h >> 2) ^ (h >> 3)) & 1);
      y8 == (if odd != 0 then (y >> 8) ^ 0xC001 else y >> 8) ^ (d << 6) ^ ((d << 6) << 1)
  {
  }

  lemma NibblesAreSmall(y: Word)
    ensures (y & 0xFF) & 0x0F <= 15 && (y & 0xFF) >> 4 <= 15
  {
  }

  lemma ParityStepByNibbles(y: Word)
    ensures var d := y & 0xFF;
      var l, h := d & 0x0F, d >> 4;
      var odd := ((l ^ (l >> 1) ^ (l >> 2) ^ (l >> 3)) & 1) ^ ((h ^ (h >> 1) ^ (h >> 2) ^ (h >> 3)) & 1);
      ParityStep(y) == (if odd != 0 then (y >> 8) ^ 0xC001 else y >> 8) ^ (d << 6) ^ ((d << 6) << 1)
  {
    hide OddParity;
    NibblesAreSmall(y);
    ParityOfNibble((y & 0xFF) & 0x0F);
    ParityOfNibble((y & 0xFF) >> 4);
  }

  lemma ParityStepIsClocks(y: Word)
    ensures ParityStep(y) == ClockBy(POLY_16, 8, y)
  {
    hide Clock, ClockBy, ParityStep;
    var y1 := Clock(POLY_16, y);
    var y2 := Clock(POLY_16, y1);
    var y3 := Clock(POLY_16, y2);
    var y4 := Clock(POLY_16, y3);
    var y5 := Clock(POLY_16, y4);
    var y6 := Clock(POLY_16, y5);
    var y7 := Clock(POLY_16, y6);
    var y8 := Clock(POLY_16, y7);
    EightClocks(POLY_16, y);
    ClockDefinition(y);
    ClockDefinition(y1);
    ClockDefinition(y2);
    ClockDefinition(y3);
    ClockDefinition(y4);
    ClockDefinition(y5);
    ClockDefinition(y6);
    ClockDefinition(y7);
    ParityTrick(y, y1, y2, y3, y4, y5, y6, y7, y8);
    ParityStepByNibbles(y);
  }

  method CheckCrc16(input: array<Byte>, len: nat, invertedCrc: array<Byte>, start: Word) returns (ok: bool)
    requires len <= input.Length && invertedCrc.Length == 2
    ensures ok <==> Register16(start, BitsOf(input[..len] + invertedCrc[..])) == Bits16(0xB001)
  {
    hide Run, Bits16, Inverted, LowByte, HighByte, Widen;
    var crc := Crc16(input, len, start);
    ResidueOfInverted(crc, start, input[..len], invertedCrc[0], invertedCrc[1]);
    assert invertedCrc[..] == [invertedCrc[0], invertedCrc[1]];
    crc := Inverted(crc);
    ok := LowByte(crc) == Widen(invertedCrc[0]) && HighByte(crc) == Widen(invertedCrc[1]);
  }

  lemma ResidueOfInverted(crc: Word, start: Word, message: seq<Byte>, low: Byte, high: Byte)
    requires Bits16(crc) == Register16(start, BitsOf(message))
    ensures LowByte(Inverted(crc)) == Widen(low) && HighByte(Inverted(crc)) == Widen(high) <==>
      Register16(start, BitsOf(message + [low, high])) == Bits16(0xB001)
  {
    hide Run, Bits16, ShiftBy, Xor, Bits8, WordOf, Inverted, Widen, LowByte, HighByte;
    var check := Bits8(low) + Bits8(high);
    BitsOfAppend(message, [low, high]);
    BitsOfTwo(low, high);
    RunAppend(Poly16(), Bits16(start), BitsOf(message), check);
    RunIsShift(Poly16(), Bits16(crc), check);
    BytesOfWord(Inverted(crc), low, high);
    WordOfBits(low, high);
    XorWithWordOf(crc, low, high);
    AllOnesBecomeResidue();
    if Xor(Bits16(crc), check) != Bits16(0xFFFF) {
      PolynomialsFeedBack();
      ShiftByIsInjective(Poly16(), 16, Xor(Bits16(crc), check), Bits16(0xFFFF));
    }
  }

  lemma BitsOfTwo(low: Byte, high: Byte)
    ensures BitsOf([low, high]) == Bits8(low) + Bits8(high)
  {
    hide Bits8;
    BitsOfOne(high);
    assert [low, high][1..] == [high];
  }

  function LowByte(w: Word): Word {
    w & 0xFF
  }

  function HighByte(w: Word): Word {
    w >> 8
  }

  /** A word from its low and high byte. */
  function WordOf(low: Byte, high: Byte): Word {
    Mix(Widen(low), Widen(high) << 8)
  }

  lemma BytesOfWord(w: Word, low: Byte, high: Byte)
    ensures LowByte(w) == Widen(low) && HighByte(w) == Widen(high) <==> w == WordOf(low, high)
  {
    hide LowByte, HighByte, Widen, Mix;
    SplitWord(w);
    WidenIsSmall(low);
    WidenIsSmall(high);
    JoinWord(Widen(low), Widen(high));
  }

  lemma SplitWord(w: Word)
    ensures w == Mix(LowByte(w), HighByte(w) << 8)
  {
  }

  lemma JoinWord(low: Word, high: Word)
    requires low & 0xFF00 == 0 && high & 0xFF00 == 0
    ensures LowByte(Mix(low, high << 8)) == low && HighByte(Mix(low, high << 8)) == high
  {
  }

  lemma WidenIsSmall(b: Byte)
    ensures Widen(b) & 0xFF00 == 0
  {
  }

  lemma HalfByLiteral(x: Word)
    ensures HalfBy(x, 0) == x && HalfBy(x, 1) == x >> 1 && HalfBy(x, 2) == x >> 2 && HalfBy(x, 4) == x >> 4
    ensures HalfBy(x, 3) == Half(x >> 2) && HalfBy(x, 5) == Half(x >> 4)
    ensures HalfBy(x, 6) == (x >> 4) >> 2 && HalfBy(x, 7) == Half((x >> 4) >> 2)
    ensures HalfBy(x, 8) == x >> 8
  {
    HalfBy2(x);
    HalfBy4(x);
    HalfBy8(x);
    HalfBy2(x >> 4);
    HalfByAdd(x, 4, 2);
    HalfByNext(x, 0);
    HalfByNext(x, 2);
    HalfByNext(x, 4);
    HalfByNext(x, 6);
  }

  lemma ShiftedUpIsEmptyBelow(v: Word)
    ensures var x := v << 8;
      && !Low(x) && !Low(x >> 1) && !Low(x >> 2) && !Low(Half(x >> 2)) && !Low(x >> 4)
      && !Low(Half(x >> 4)) && !Low((x >> 4) >> 2) && !Low(Half((x >> 4) >> 2))
  {
  }

  lemma ShiftedUpBits(b: Byte, k: nat)
    requires k < 16
    ensures Bit(Widen(b) << 8, k) == (8 <= k && Bit(Widen(b), k - 8))
  {
    hide HalfBy, Low, Half;
    HalfByLiteral(Widen(b) << 8);
    if k < 8 {
      ShiftedUpIsEmptyBelow(Widen(b));
    } else {
      UpAndDown(b);
      HighBit(Widen(b) << 8, k - 8);
    }
  }

  lemma UpAndDown(b: Byte)
    ensures (Widen(b) << 8) >> 8 == Widen(b)
  {
  }

  lemma WordOfBits(low: Byte, high: Byte)
    ensures Bits16(WordOf(low, high)) == Bits8(low) + Bits8(high)
  {
    hide Bit, Mix, Widen;
    forall k | 0 <= k < 16
      ensures Bit(WordOf(low, high), k) == if k < 8 then Bit(Widen(low), k) else Bit(Widen(high), k - 8)
    {
      MixBit(Widen(low), Widen(high) << 8, k);
      ShiftedUpBits(high, k);
      if k >= 8 {
        HighBit(Widen(low), k - 8);
        ByteIsNarrow(low);
        ZeroBits(k - 8);
      }
    }
  }

  lemma XorWithWordOf(crc: Word, low: Byte, high: Byte)
    ensures Xor(Bits16(crc), Bits16(WordOf(low, high))) == Bits16(0xFFFF) <==> Inverted(crc) == WordOf(low, high)
  {
    hide WordOf, Bits16, Mix, Inverted;
    var w := WordOf(low, high);
    Bits16Mix(crc, w);
    if Bits16(Mix(crc, w)) == Bits16(0xFFFF) {
      Bits16Injective(Mix(crc, w), 0xFFFF);
    }
    ComplementIsMix(crc, w);
  }

  lemma Bits16Mix(a: Word, b: Word)
    ensures Bits16(Mix(a, b)) == Xor(Bits16(a), Bits16(b))
  {
    MixIsXor(a, b, 16);
  }

  function Inverted(w: Word): Word {
    !w
  }

  lemma InvertedIsMix(w: Word)
    ensures Mix(w, 0xFFFF) == Inverted(w)
  {
  }

  lemma ComplementIsMix(crc: Word, w: Word)
    ensures Mix(crc, w) == 0xFFFF <==> Inverted(crc) == w
  {
    hide Mix, Inverted;
    InvertedIsMix(crc);
    Cancel(crc, w);
    Cancel(crc, 0xFFFF);
  }

  lemma Cancel(a: Word, b: Word)
    ensures Mix(a, Mix(a, b)) == b
  {
    hide Mix;
    MixIsAssociative(a, a, b);
    MixBasics(a, b);
    MixBasics(b, 0);
  }

  lemma AllOnesBecomeResidue()
    ensures ShiftBy(Poly16(), 16, Bits16(0xFFFF)) == Bits16(0xB001)
  {
    hide Clock, HalfBy, ShiftBy, BitString;
    OnesClocked();
    EightClocks(POLY_16, 0xFFFF);
    EightClocks(POLY_16, 0x40BF);
    ClockByAdd(POLY_16, 8, 8, 0xFFFF);
    NothingAbove(0xFFFF);
    NothingAbove(POLY_16);
    ClockByIsShiftBy(POLY_16, 16, 0xFFFF, 16);
  }

  lemma {:induction false} ClockByAdd(poly: Word, j: nat, k: nat, s: Word)
    ensures ClockBy(poly, j + k, s) == ClockBy(poly, k, ClockBy(poly, j, s))
    decreases j
  {
    hide Clock;
    if j > 0 {
      ClockByAdd(poly, j - 1, k, Clock(poly, s));
    }
  }

  lemma OnesClocked()
    ensures Clock(POLY_16, 0xFFFF) == 0xDFFE
    ensures Clock(POLY_16, 0xDFFE) == 0x6FFF
    ensures Clock(POLY_16, 0x6FFF) == 0x97FE
    ensures Clock(POLY_16, 0x97FE) == 0x4BFF
    ensures Clock(POLY_16, 0x4BFF) == 0x85FE
    ensures Clock(POLY_16, 0x85FE) == 0x42FF
    ensures Clock(POLY_16, 0x42FF) == 0x817E
    ensures Clock(POLY_16, 0x817E) == 0x40BF
    ensures Clock(POLY_16, 0x40BF) == 0x805E
    ensures Clock(POLY_16, 0x805E) == 0x402F
    ensures Clock(POLY_16, 0x402F) == 0x8016
    ensures Clock(POLY_16, 0x8016) == 0x400B
    ensures Clock(POLY_16, 0x400B) == 0x8004
    ensures Clock(POLY_16, 0x8004) == 0x4002
    ensures Clock(POLY_16, 0x4002) == 0x2001
    ensures Clock(POLY_16, 0x2001) == 0xB001
  {
  }
}
