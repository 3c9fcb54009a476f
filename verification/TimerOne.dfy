/** Timer1 in phase and frequency correct mode at 16 MHz: the choice of the
    prescaler, and how far a reading is from the time that has passed. */
module TimerOne {
  import opened Integers

  const RESOLUTION := 65536

  /** Cycles the counter needs to its top for a period: it comes back down. */
  function Cycles(microseconds: int): int {
    8 * microseconds
  }

  /** `long` holds the product; beyond that the result of setPeriod is undefined. */
  predicate InRange(microseconds: int) {
    -0x8000_0000 <= Cycles(microseconds) < 0x8000_0000
  }

  const PRESCALERS: seq<nat> := [1, 8, 64, 256, 1024]

  /** The prescaler behind a value of clockSelectBits. */
  function Prescaler(bits: uint8): nat {
    match bits
    case 1 => 1 case 2 => 8 case 3 => 64 case 4 => 256 case 5 => 1024 case _ => 1
  }

  /** What setPeriod promises: the finest prescaler with which the period fits
      in 16 bits and the period itself to within one tick, or the longest period
      there is. */
  ghost predicate Fits(cycles: int, bits: uint8, top: uint16) {
    && 1 <= bits <= 5
    && (forall k | 0 <= k < bits - 1 :: cycles >= RESOLUTION * PRESCALERS[k])
    && if cycles < RESOLUTION * 1024
       then top * Prescaler(bits) <= cycles < (top + 1) * Prescaler(bits)
       else bits == 5 && top == RESOLUTION - 1
  }

  /** The quotient by a prescaler, told from the quotient by the one before. */
  lemma FitsFromBounds(cycles: int, bits: uint8, top: uint16, p: nat)
    requires 1 <= bits <= 5 && p == Prescaler(bits) && cycles < RESOLUTION * p
    requires p * top <= cycles < p * top + p
    requires bits > 1 ==> cycles >= RESOLUTION * Prescaler(bits - 1)
    ensures Fits(cycles, bits, top)
  {
    assert (top + 1) * p == p * top + p;
  }

  lemma LongestFits(cycles: int)
    requires cycles >= RESOLUTION * 1024
    ensures Fits(cycles, 5, RESOLUTION - 1)
  {
  }

  lemma NegativeNeverFits(cycles: int, bits: uint8, top: uint16)
    requires cycles < 0
    ensures !Fits(cycles, bits, top)
  {
    if 1 <= bits <= 5 {
      assert top * Prescaler(bits) >= 0;
    }
  }

  // ----- the counter

  /** The counter's value `e` ticks into a period: up to the top and down again. */
  function CounterAt(top: nat, e: nat): int
    requires e <= 2 * top
  {
    if e <= top then e else 2 * top - e
  }

  /** The tick a reading stands for, from the counter's values before and after
      it moved: going up the first, going down the second. */
  function TickRead(top: int, first: int, second: int): int {
    if second > first then first else top - second + top
  }

  lemma TickReadIsElapsed(top: nat, e: nat)
    requires e < 2 * top
    ensures TickRead(top, CounterAt(top, e), CounterAt(top, e + 1)) == if e < top then e else e + 1
  {
  }

  function Scale(bits: uint8): nat {
    match bits
    case 1 => 0 case 2 => 3 case 3 => 6 case 4 => 8 case 5 => 10 case _ => 0
  }

  function Shl(x: nat, k: nat): nat {
    if k == 0 then x else 2 * Shl(x, k - 1)
  }

  lemma ShiftIsPrescaler(x: nat, bits: uint8)
    requires 1 <= bits <= 5
    ensures Shl(x, Scale(bits)) == x * Prescaler(bits)
  {
    assert Shl(x, 1) == 2 * x;
    assert Shl(x, 2) == 4 * x;
    assert Shl(x, 3) == 8 * x;
    assert Shl(x, 4) == 16 * x;
    assert Shl(x, 5) == 32 * x;
    assert Shl(x, 6) == 64 * x;
    assert Shl(x, 7) == 128 * x;
    assert Shl(x, 8) == 256 * x;
    assert Shl(x, 9) == 512 * x;
    assert Shl(x, 10) == 1024 * x;
  }

  /** A reading is at most the time passed at its tick and less than a prescaler
      of microseconds below it; sixteen ticks of the prescaled clock are that
      many microseconds. */
  lemma ReadingError(tick: nat, p: nat)
    requires p > 0
    ensures 16 * (tick / 16 * p) <= tick * p < 16 * (tick / 16 * p) + 16 * p
  {
    var q, r := tick / 16, tick % 16;
    assert tick == 16 * q + r;
    assert tick * p == 16 * (q * p) + r * p;
    assert 0 <= r * p < 16 * p;
  }

  /** No reading exceeds the period asked for. */
  lemma ReadingBelowPeriod(microseconds: int, bits: uint8, top: uint16, tick: nat)
    requires microseconds >= 0 && Fits(Cycles(microseconds), bits, top) && tick <= 2 * top
    ensures tick / 16 * Prescaler(bits) <= microseconds
  {
    var p := Prescaler(bits);
    assert top * p <= Cycles(microseconds);
    var q := tick / 16;
    assert 8 * q <= top;
    assert 8 * (q * p) <= top * p by {
      assert (8 * q) * p <= top * p;
    }
  }

  /** The timer counts up to the top and down again at 16 MHz over the prescaler:
      its period is the one asked for to within two of those ticks. */
  lemma PeriodInTicks(microseconds: int, bits: uint8, top: uint16)
    ensures Fits(Cycles(microseconds), bits, top) && 16 * microseconds < 2 * 65536 * 1024 ==>
      2 * (top * Prescaler(bits)) <= 16 * microseconds < 2 * ((top + 1) * Prescaler(bits))
  {
  }

  class TimerOne {
    var pwmPeriod: uint16
    var clockSelectBits: uint8
    /** The registers ICR1, OCR1A and OCR1B, and the clock select bits of TCCR1B. */
    var icr1: uint16
    var ocr1a: uint16
    var ocr1b: uint16
    var running: uint8

    /** Shifts the cycles down until they fit in 16 bits. */
    static method Prescale(c: int) returns (cycles: int, bits: uint8)
      ensures c >= 0 ==> 0 <= cycles < RESOLUTION && Fits(c, bits, cycles)
      ensures c < 0 ==> cycles == c && bits == 1
    {
      hide Fits;
      cycles := c;
      if cycles < RESOLUTION {
        bits := 1;
      } else {
        cycles := cycles / 8;
        if cycles < RESOLUTION {
          bits := 2;
        } else {
          cycles := cycles / 8;
          if cycles < RESOLUTION {
            bits := 3;
          } else {
            cycles := cycles / 4;
            if cycles < RESOLUTION {
              bits := 4;
            } else {
              cycles := cycles / 4;
              bits := 5;
              if cycles >= RESOLUTION {
                LongestFits(c);
                cycles := RESOLUTION - 1;
                return;
              }
            }
          }
        }
      }
      if c >= 0 {
        FitsFromBounds(c, bits, cycles, Prescaler(bits));
      }
    }

    method SetPeriod(microseconds: int)
      requires InRange(microseconds)
      modifies this`pwmPeriod, this`clockSelectBits, this`icr1, this`running
      ensures icr1 == pwmPeriod && running == clockSelectBits
      ensures Fits(Cycles(microseconds), clockSelectBits, pwmPeriod) <==> microseconds >= 0
      ensures 0 <= microseconds && 16 * microseconds < 2 * 65536 * 1024 ==>
        2 * (icr1 * Prescaler(clockSelectBits)) <= 16 * microseconds < 2 * ((icr1 + 1) * Prescaler(clockSelectBits))
      ensures microseconds < 0 ==> clockSelectBits == 1 && pwmPeriod == Cycles(microseconds) % RESOLUTION
    {
      hide Fits;
      var cycles, bits := Prescale((16000000 / 2000000) * microseconds);
      PeriodInTicks(microseconds, bits, cycles % RESOLUTION);
      clockSelectBits := bits;
      if microseconds < 0 {
        NegativeNeverFits(Cycles(microseconds), 1, cycles % RESOLUTION);
      }
      pwmPeriod := cycles % RESOLUTION;
      icr1 := pwmPeriod;
      running := clockSelectBits;
    }

    /** 10 bits of duty cycle; the product is taken in 32 bits and the register
        keeps 16. */
    method SetPwmDuty(pin: int, duty: int)
      requires -0x8000 <= duty < 0x8000
      modifies this`ocr1a, this`ocr1b
      ensures pin in {1, 9} ==> ocr1b == old(ocr1b) && (0 <= duty <= 1024 ==> DutyIs(ocr1a, duty))
      ensures pin in {2, 10} ==> ocr1a == old(ocr1a) && (0 <= duty <= 1024 ==> DutyIs(ocr1b, duty))
      ensures pin in {1, 9} && !(0 <= duty <= 1024) ==> ocr1a == Wrapped(pwmPeriod, duty)
      ensures pin in {2, 10} && !(0 <= duty <= 1024) ==> ocr1b == Wrapped(pwmPeriod, duty)
      ensures pin !in {1, 2, 9, 10} ==> ocr1a == old(ocr1a) && ocr1b == old(ocr1b)
    {
      var dutyCycle := pwmPeriod * duty % 0x1_0000_0000 / 1024;
      if 0 <= duty <= 1024 {
        ProductInRange(pwmPeriod, duty);
        ShareOf(pwmPeriod * duty, pwmPeriod);
      }
      WrappedShare(pwmPeriod * duty);
      if pin == 1 || pin == 9 {
        ocr1a := dutyCycle % RESOLUTION;
      } else if pin == 2 || pin == 10 {
        ocr1b := dutyCycle % RESOLUTION;
      }
    }

    /** A duty outside ten bits wraps: its share modulo 2^22 and then 2^16. */
    static function Wrapped(period: uint16, duty: int): uint16 {
      period * duty / 1024 % 0x40_0000 % RESOLUTION
    }

    /** A compare value is the duty's share of the period, to within one tick,
        and never beyond the top. */
    ghost predicate DutyIs(compare: uint16, duty: int)
      reads this
    {
      compare <= pwmPeriod && 1024 * compare <= pwmPeriod * duty < 1024 * (compare + 1)
    }

    /** `first` and `second` are TCNT1 before and after its next tick, e ticks
        into the period. */
    method Read(first: int, second: int, ghost e: nat, ghost microseconds: int) returns (reading: nat)
      requires 0 < icr1 && e < 2 * icr1 && first == CounterAt(icr1, e) && second == CounterAt(icr1, e + 1)
      requires microseconds >= 0 && Fits(Cycles(microseconds), clockSelectBits, icr1)
      ensures var tick := if e < icr1 then e else e + 1;
        && reading == tick / 16 * Prescaler(clockSelectBits)
        && 16 * reading <= tick * Prescaler(clockSelectBits) < 16 * reading + 16 * Prescaler(clockSelectBits)
        && reading <= microseconds
    {
      var scale := 0;
      match clockSelectBits {
        case 1 => scale := 0;
        case 2 => scale := 3;
        case 3 => scale := 6;
        case 4 => scale := 8;
        case 5 => scale := 10;
        case _ =>
      }
      TickReadIsElapsed(icr1, e);
      var tmp: nat := if second > first then first else icr1 - second + icr1;
      reading := Shl(tmp * 1000 / (16000000 / 1000), scale);
      assert tmp * 1000 / 16000 == tmp / 16;
      ShiftIsPrescaler(tmp / 16, clockSelectBits);
      ReadingError(tmp, Prescaler(clockSelectBits));
      ReadingBelowPeriod(microseconds, clockSelectBits, icr1, tmp);
    }
  }

  lemma ShareOf(product: int, period: uint16)
    requires 0 <= product <= 1024 * period
    ensures var share := product % 0x1_0000_0000 / 1024;
      share <= period && share % RESOLUTION == share && 1024 * share <= product < 1024 * (share + 1)
  {
  }

  lemma WrappedShare(product: int)
    ensures product % 0x1_0000_0000 / 1024 == product / 1024 % 0x40_0000
  {
    var high, low := product / 0x1_0000_0000, product % 0x1_0000_0000;
    assert product == high * 0x1_0000_0000 + low;
    assert product / 1024 == high * 0x40_0000 + low / 1024;
  }

  lemma ProductInRange(period: uint16, duty: int)
    requires 0 <= duty <= 1024
    ensures 0 <= period * duty <= period * 1024 < 0x1_0000_0000
  {
  }
}
