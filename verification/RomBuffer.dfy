/** ROM numbers as the eight bytes the drivers keep, edited in place one bit at
    a time through a byte index and a one-bit mask. */
module RomBuffer {
  import opened RomTrie
  import opened ByteBits

  /** The mask after k shifts; the eighth shift empties it. */
  function Mask(k: nat): Byte {
    if k == 0 then 1 else Mask(k - 1) << 1
  }

  lemma MaskValues()
    ensures Mask(0) == 1 && Mask(1) == 2 && Mask(2) == 4 && Mask(3) == 8
    ensures Mask(4) == 16 && Mask(5) == 32 && Mask(6) == 64 && Mask(7) == 128 && Mask(8) == 0
  {
    assert Mask(1) == 2;
    assert Mask(2) == 4;
    assert Mask(3) == 8;
    assert Mask(4) == 16;
    assert Mask(5) == 32;
    assert Mask(6) == 64;
    assert Mask(7) == 128;
  }

  predicate BitOf(b: Byte, k: nat)
    requires k < 8
  {
    b & Mask(k) != 0
  }

  lemma MaskIsEmptyAt8(k: nat)
    requires k <= 8
    ensures Mask(k) == 0 <==> k == 8
  {
    MaskValues();
  }

  /** Shifting the mask moves it to the next bit of the byte, and empties it
      after the last one. */
  lemma MaskStep(k: nat)
    requires k < 8
    ensures Mask(k) << 1 == if k == 7 then 0 else Mask(k + 1)
    ensures k < 7 ==> Mask(k + 1) != 0
    ensures Mask(0) == 1
  {
    assert Mask(k + 1) == Mask(k) << 1;
    MaskIsEmptyAt8(k + 1);
  }

  lemma MasksAreDisjoint(k: nat, j: nat)
    requires k < 8 && j < 8
    ensures Mask(k) != 0
    ensures k != j ==> Mask(k) & Mask(j) == 0
  {
    MaskValues();
  }

  /** The bits of an eight byte ROM in the order the search visits them. */
  function RomOf(bytes: seq<Byte>): Rom
    requires |bytes| == 8
  {
    seq(ROM_BITS, i requires 0 <= i < ROM_BITS => BitOf(bytes[i / 8], i % 8))
  }

  /** Setting or clearing one mask bit of one byte changes exactly one bit of
      the ROM. */
  lemma WriteRomBit(bytes: seq<Byte>, i: nat, k: nat, bit: bool)
    requires |bytes| == 8 && i < 8 && k < 8
    ensures RomOf(bytes[i := Masked(bytes[i], Mask(k), bit)]) == RomOf(bytes)[8 * i + k := bit]
  {
    hide Mask, Masked, BitOf;
    var written := bytes[i := Masked(bytes[i], Mask(k), bit)];
    forall j | 0 <= j < ROM_BITS
      ensures BitOf(written[j / 8], j % 8) == RomOf(bytes)[8 * i + k := bit][j]
    {
      MaskedAt(bytes[i], k, bit, j % 8);
    }
  }

  lemma BufferBit(bytes: seq<Byte>, i: nat, k: nat)
    requires |bytes| == 8 && i < 8 && k < 8
    ensures RomOf(bytes)[8 * i + k] == BitOf(bytes[i], k)
  {
  }

  /** A byte with the bits under the mask set or cleared. */
  function Masked(b: Byte, mask: Byte, bit: bool): Byte {
    if bit then b | mask else b & !mask
  }

  lemma MaskedAt(b: Byte, k: nat, bit: bool, j: nat)
    requires k < 8 && j < 8
    ensures BitOf(Masked(b, Mask(k), bit), j) == if j == k then bit else BitOf(b, j)
  {
    hide Mask, BitOf, Masked;
    MasksAreDisjoint(k, j);
    MaskedUnder(b, Mask(k), Mask(j), j == k, bit);
    BitUnderMask(b, j);
    BitUnderMask(Masked(b, Mask(k), bit), j);
  }

  lemma BitUnderMask(b: Byte, j: nat)
    requires j < 8
    ensures BitOf(b, j) == (b & Mask(j) != 0)
  {
  }

  lemma MaskedUnder(b: Byte, m: Byte, n: Byte, same: bool, bit: bool)
    requires m != 0 && if same then m == n else m & n == 0
    ensures (Masked(b, m, bit) & n != 0) == if same then bit else b & n != 0
  {
  }

  lemma BitsDetermineByte(a: Byte, b: Byte)
    requires forall k | 0 <= k < 8 :: BitOf(a, k) == BitOf(b, k)
    ensures a == b
  {
    MaskValues();
    assert BitOf(a, 0) == BitOf(b, 0) && BitOf(a, 1) == BitOf(b, 1) && BitOf(a, 2) == BitOf(b, 2)
        && BitOf(a, 3) == BitOf(b, 3) && BitOf(a, 4) == BitOf(b, 4) && BitOf(a, 5) == BitOf(b, 5)
        && BitOf(a, 6) == BitOf(b, 6) && BitOf(a, 7) == BitOf(b, 7);
  }

  // ----- the ROM as a CRC message

  lemma {:induction false} BitUnderMaskIsShifted(b: Byte, k: nat)
    requires k < 8
    ensures BitOf(b, k) == Bit(Widen(b), k)
    decreases k
  {
    hide Widen, Half, Low, BitOf;
    if k == 0 {
      LowestBit(b);
    } else {
      BitUnderMaskIsShifted(b >> 1, k - 1);
      HalfOfByte(b);
      NextMask(b, k);
    }
  }

  lemma LowestBit(b: Byte)
    ensures BitOf(b, 0) == Low(Widen(b))
  {
  }

  lemma NextMask(b: Byte, k: nat)
    requires 0 < k < 8
    ensures BitOf(b, k) == BitOf(b >> 1, k - 1)
  {
    hide Mask;
    MaskValues();
    assert Mask(k) == Mask(k - 1) << 1 && Mask(k - 1) & 0x80 == 0;
    UnderShiftedMask(b, Mask(k - 1));
  }

  lemma UnderShiftedMask(b: Byte, m: Byte)
    requires m & 0x80 == 0
    ensures b & (m << 1) != 0 <==> (b >> 1) & m != 0
  {
  }

  /** The search reads a ROM in exactly the order in which the CRC takes it in. */
  lemma RomIsMessage(bytes: seq<Byte>)
    requires |bytes| == 8
    ensures RomOf(bytes) == BitsOf(bytes)
  {
    hide Bit, BitOf, Widen;
    forall j | 0 <= j < ROM_BITS
      ensures RomOf(bytes)[j] == BitsOf(bytes)[j]
    {
      BitUnderMaskIsShifted(bytes[j / 8], j % 8);
      BitOfMessage(bytes, j / 8, j % 8);
    }
  }

  lemma {:induction false} BitOfMessage(bytes: seq<Byte>, i: nat, k: nat)
    requires i < |bytes| && k < 8
    ensures BitsOf(bytes)[8 * i + k] == Bit(Widen(bytes[i]), k)
  {
    hide Bit, Widen;
    if i > 0 {
      assert BitsOf(bytes)[8 * i + k] == BitsOf(bytes[1..])[8 * (i - 1) + k];
      BitOfMessage(bytes[1..], i - 1, k);
    }
  }
}
