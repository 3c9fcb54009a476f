/** The frame check sequence of RFCOMM frames, section 5.2.1.6 of TS 07.10. */
module RfcommFcs {
  import opened Integers
  import opened ShiftRegister
  import opened ByteBits
  import opened CrcTables

  /** UIH, with or without the P/F bit. */
  predicate IsUih(control: Byte) {
    control & 0xEF == 0xEF
  }

  function Flip(a: Byte): Byte {
    0xFF - a
  }

  /** One look-up: the register after one more byte. */
  function Entered(crc: Byte, b: Byte): Byte {
    RfcommTable(crc ^ b)
  }

  function Crc(d0: Byte, d1: Byte): Byte {
    Entered(Entered(0xFF, d0), d1)
  }

  /** Over two bytes for UIH frames, over three for the others. */
  function CalcFcs(d0: Byte, d1: Byte, d2: Byte): Byte {
    if IsUih(d1) then Flip(Crc(d0, d1)) else Flip(Entered(Crc(d0, d1), d2))
  }

  predicate CheckFcs(d0: Byte, d1: Byte, d2: Byte, fcs: Byte) {
    var temp := if IsUih(d1) then Crc(d0, d1) else Entered(Crc(d0, d1), d2);
    Entered(temp, fcs) == 0xCF
  }

  // ----- what it computes

  function PolyFcs(): (p: Bits)
    ensures |p| == 8
  {
    BitString(RFCOMM_POLY, 8)
  }

  /** The register of the standard: ones to start with, then the message. */
  function RegisterFcs(message: seq<Byte>): (r: Bits)
    ensures |r| == 8
  {
    Run(PolyFcs(), Bits8(0xFF), BitsOf(message))
  }

  function Checked(d0: Byte, d1: Byte, d2: Byte): seq<Byte> {
    if IsUih(d1) then [d0, d1] else [d0, d1, d2]
  }

  lemma FcsPolynomial()
    ensures HalfBy(RFCOMM_POLY, 8) == 0 && Feedback(PolyFcs())
  {
    HalfBy8(RFCOMM_POLY);
    HalfByAdd(RFCOMM_POLY, 4, 3);
    HalfBy4(RFCOMM_POLY);
    assert HalfBy(0x0E, 3) == 0x01;
    assert Bit(RFCOMM_POLY, 7);
  }

  lemma TableStep(crc: Byte, b: Byte, message: seq<Byte>)
    requires Bits8(crc) == RegisterFcs(message)
    ensures Bits8(Entered(crc, b)) == RegisterFcs(message + [b])
  {
    hide Run, BitString, RfcommTable, ClockBy;
    FcsPolynomial();
    RfcommTableIsClocks(crc ^ b);
    ByteStep(RFCOMM_POLY, crc, b, RfcommTable(crc ^ b));
    BitsOfAppend(message, [b]);
    BitsOfOne(b);
    RunAppend(PolyFcs(), Bits8(0xFF), BitsOf(message), Bits8(b));
  }

  /** CalcFcs is the complement of the register after the bytes it covers. */
  lemma FcsIsComplementOfRegister(d0: Byte, d1: Byte, d2: Byte)
    ensures Bits8(Flip(CalcFcs(d0, d1, d2))) == RegisterFcs(Checked(d0, d1, d2))
  {
    hide Entered, Flip, IsUih, Bits8, RegisterFcs;
    NothingRun();
    TableStep(0xFF, d0, []);
    assert [] + [d0] == [d0] && [d0] + [d1] == [d0, d1] && [d0, d1] + [d2] == [d0, d1, d2];
    TableStep(Entered(0xFF, d0), d1, [d0]);
    TableStep(Crc(d0, d1), d2, [d0, d1]);
    Complement(Crc(d0, d1));
    Complement(Entered(Crc(d0, d1), d2));
  }

  lemma NothingRun()
    ensures RegisterFcs([]) == Bits8(0xFF)
  {
  }

  lemma Complement(a: Byte)
    ensures Flip(Flip(a)) == a
  {
  }

  // ----- what it accepts

  /** Eight clocks lose nothing, so the table has no entry twice. */
  lemma TableIsInjective(a: Byte, b: Byte)
    requires RfcommTable(a) == RfcommTable(b)
    ensures a == b
  {
    hide RfcommTable, ClockBy, ShiftBy, HalfBy, Feedback, BitString, Widen;
    FcsPolynomial();
    RfcommTableIsClocks(a);
    RfcommTableIsClocks(b);
    ByteIsNarrow(a);
    ByteIsNarrow(b);
    ClockByIsShiftBy(RFCOMM_POLY, 8, Widen(a), 8);
    ClockByIsShiftBy(RFCOMM_POLY, 8, Widen(b), 8);
    if Bits8(a) != Bits8(b) {
      ShiftByIsInjective(PolyFcs(), 8, Bits8(a), Bits8(b));
    } else {
      Bits8Injective(a, b);
    }
  }

  lemma LastEntry()
    ensures RfcommTable(0xFF) == 0xCF
  {
  }

  /** The residue 0xCF comes from 0xFF alone. */
  lemma OnlyOnesLeaveResidue(x: Byte)
    ensures RfcommTable(x) == 0xCF <==> x == 0xFF
  {
    hide RfcommTable;
    LastEntry();
    if RfcommTable(x) == 0xCF {
      TableIsInjective(x, 0xFF);
    }
  }

  lemma XorIsOnes(a: Byte, b: Byte)
    ensures a ^ b == 0xFF <==> b == Flip(a)
  {
  }

  lemma OnlyFlipLeavesResidue(crc: Byte, fcs: Byte)
    ensures Entered(crc, fcs) == 0xCF <==> fcs == Flip(crc)
  {
    hide RfcommTable, Flip;
    OnlyOnesLeaveResidue(crc ^ fcs);
    XorIsOnes(crc, fcs);
  }

  /** checkFcs accepts the one byte calcFcs computes. */
  lemma CheckAcceptsExactlyCalc(d0: Byte, d1: Byte, d2: Byte, fcs: Byte)
    ensures CheckFcs(d0, d1, d2, fcs) <==> fcs == CalcFcs(d0, d1, d2)
  {
    hide Entered, Flip, IsUih, Crc;
    OnlyFlipLeavesResidue(if IsUih(d1) then Crc(d0, d1) else Entered(Crc(d0, d1), d2), fcs);
  }

  /** Headers that differ within eight neighbouring bits have different FCS. */
  lemma FcsDetectsBursts(a: seq<Byte>, b: seq<Byte>, front: Bits, sent: Bits, received: Bits, back: Bits)
    requires BitsOf(a) == front + sent + back && BitsOf(b) == front + received + back
    requires |sent| == |received| <= 8 && sent != received
    ensures RegisterFcs(a) != RegisterFcs(b)
  {
    hide Run, BitString, Feedback, Bits8;
    FcsPolynomial();
    BurstIsDetected(PolyFcs(), Bits8(0xFF), front, sent, received, back);
  }

  // ----- on bytes kept as integers

  function FromByte(b: Byte): uint8 {
    b as int
  }

  lemma OneMore(b: Byte)
    requires b != 0xFF
    ensures (b + 1) as int == b as int + 1
  {
  }

  lemma LargestByte()
    ensures 0xFF as Byte as int == 255
  {
  }

  lemma FromByteIsInjective(a: Byte, b: Byte)
    requires a as int == b as int
    ensures a == b
  {
  }

  /** The byte with this value. */
  function ToByte(x: uint8): (b: Byte)
    ensures FromByte(b) == x
  {
    if x == 0 then 0
    else
      var b := ToByte(x - 1);
      LargestByte();
      OneMore(b);
      b + 1
  }

  lemma ByteConversions(b: Byte)
    ensures ToByte(FromByte(b)) == b
  {
    FromByteIsInjective(ToByte(FromByte(b)), b);
  }

  function Fcs(d0: uint8, d1: uint8, d2: uint8): uint8 {
    FromByte(CalcFcs(ToByte(d0), ToByte(d1), ToByte(d2)))
  }

  predicate FcsOk(d0: uint8, d1: uint8, d2: uint8, fcs: uint8) {
    CheckFcs(ToByte(d0), ToByte(d1), ToByte(d2), ToByte(fcs))
  }

  lemma FcsOkExactlyFcs(d0: uint8, d1: uint8, d2: uint8, fcs: uint8)
    ensures FcsOk(d0, d1, d2, fcs) <==> fcs == Fcs(d0, d1, d2)
  {
    hide CheckFcs, CalcFcs, ToByte, FromByte;
    ByteConversions(CalcFcs(ToByte(d0), ToByte(d1), ToByte(d2)));
    CheckAcceptsExactlyCalc(ToByte(d0), ToByte(d1), ToByte(d2), ToByte(fcs));
  }
}
