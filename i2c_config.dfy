/**
 * The configuration record of the I2C peripheral driver and the register
 * arithmetic of i2c_init, as functions of the configuration and of the
 * clock settings it reads.
 */
module I2cConfig {
  import opened Bytes

  /** A `uint16_t` value. */
  type u16 = x: int | 0 <= x < 0x1_0000

  /** A `uint32_t` value. */
  type u32 = x: int | 0 <= x < 0x1_0000_0000

  // Option values of the configuration record (one group per field).
  const ModeI2c: u16 := 0x0000
  const ModeSmbusDevice: u16 := 0x0002
  const ModeSmbusHost: u16 := 0x000A
  const FastModeEnable: u16 := 0x8000
  const FastModeDisable: u16 := 0x0000
  const Duty2: u16 := 0x0000
  const Duty16By9: u16 := 0x4000
  const ClkStretchEnable: u16 := 0x0000
  const ClkStretchDisable: u16 := 0x0080
  const AddrMode7Bit: u16 := 0x0000
  const AddrMode10Bit: u16 := 0x8000
  const DualAddrModeEnable: u16 := 0x0001
  const DualAddrModeDisable: u16 := 0x0000
  const GeneralCallEnable: u16 := 0x0040
  const GeneralCallDisable: u16 := 0x0000
  const PecEnable: u16 := 0x0020
  const PecDisable: u16 := 0x0000
  const ArpEnable: u16 := 0x0010
  const ArpDisable: u16 := 0x0000
  const DmaEnable: u16 := 0x0800
  const DmaDisable: u16 := 0x0000

  /** Bit positions of CCR that i2c_init tests: FS (fast mode) and DUTY. */
  const CcrFsBit: nat := 15
  const CcrDutyBit: nat := 14

  /** The bit of OAR1 that the reference manual requires to be kept at 1. */
  const Oar1FixedBit: nat := 0x4000

  /** The I2C_Init_t record. */
  datatype I2cInit = I2cInit(
    mode: u16,
    clockSpeed: u32,
    fastMode: u16,
    dutyCycle: u16,
    clockStretching: u16,
    addressingMode: u16,
    dualAddressingMode: u16,
    ownAddress1: u16,
    ownAddress2: u16,
    generalCall: u16,
    pec: u16,
    arp: u16,
    dmaTransfer: u16)

  /**
   * i2c_structInit: plain I2C at 400 kHz in fast mode with duty 2,
   * stretching on, 7-bit addressing, one own address, everything optional
   * off. The own addresses are the ones the code stores, 0x7C and 0x7A.
   */
  function StructInit(): I2cInit
  {
    I2cInit(ModeI2c, 400000, FastModeEnable, Duty2, ClkStretchEnable, AddrMode7Bit,
            DualAddrModeDisable, 0x7C, 0x7A, GeneralCallDisable, PecDisable, ArpDisable, DmaDisable)
  }

  /** Every option field holds one of the values defined for it. */
  predicate DocumentedOptions(c: I2cInit)
  {
    (c.mode == ModeI2c || c.mode == ModeSmbusDevice || c.mode == ModeSmbusHost) &&
    (c.arp == ArpDisable || c.arp == ArpEnable) &&
    (c.pec == PecDisable || c.pec == PecEnable) &&
    (c.generalCall == GeneralCallDisable || c.generalCall == GeneralCallEnable) &&
    (c.clockStretching == ClkStretchEnable || c.clockStretching == ClkStretchDisable)
  }

  // ---------------------------------------------------------------------
  // CR1 and the own-address registers
  // ---------------------------------------------------------------------

  /** The option bits i2c_init ORs into CR1. */
  function Cr1Options(c: I2cInit): nat
  {
    Or(Or(Or(Or(c.mode, c.arp), c.pec), c.generalCall), c.clockStretching)
  }

  /** OAR1: the fixed bit 14 and the first own address shifted left by one. */
  function Oar1(c: I2cInit): nat
  {
    Or(Oar1FixedBit, c.ownAddress1 * 2)
  }

  /** Whether i2c_init writes OAR2: only for the exact value 0x0001. */
  predicate WritesOar2(c: I2cInit)
  {
    c.dualAddressingMode == DualAddrModeEnable
  }

  /** OAR2 when it is written: the ENDUAL bit, then the second address shifted left by one. */
  function Oar2(c: I2cInit): nat
  {
    Or(c.dualAddressingMode, c.ownAddress2 * 2)
  }

  /** OR of a number below 2^n and a multiple of 2^n is their sum: their set digits lie apart. */
  lemma {:induction false} OrDisjoint(a: nat, q: nat, n: nat)
    requires a < Bit(n)
    ensures Or(a, q * Bit(n)) == a + q * Bit(n)
    decreases n
  {
    var b := q * Bit(n);
    if a != 0 && b != 0 {
      assert n > 0;
      var half := q * Bit(n - 1);
      assert b == 2 * half;
      assert b / 2 == half && b % 2 == 0;
      OrDisjoint(a / 2, q, n - 1);
      assert Or(a, b) == 2 * Or(a / 2, half) + a % 2;
    }
  }

  /** The powers of two the register layout uses. */
  lemma BitValues()
    ensures Bit(4) == 0x10 && Bit(5) == 0x20 && Bit(6) == 0x40 && Bit(7) == 0x80 && Bit(8) == 0x100
    ensures Bit(12) == 0x1000 && Bit(14) == 0x4000 && Bit(15) == 0x8000 && Bit(16) == 0x1_0000
  {
    assert Bit(8) == 0x100;
    assert Bit(12) == 0x1000;
    assert Bit(16) == 0x1_0000;
  }

  /** Adding one option bit, set or clear, above a value that fits below it. */
  lemma OrAbove(x: nat, v: nat, n: nat)
    requires x < Bit(n) && (v == 0 || v == Bit(n))
    ensures Or(x, v) == x + v && x + v < Bit(n + 1)
  {
    if v == 0 {
      OrDisjoint(x, 0, n);
    } else {
      OrDisjoint(x, 1, n);
    }
  }

  /** ORing four values in turn, once each partial OR is known. */
  lemma OrChain(m: nat, a: nat, p: nat, g: nat, k: nat, s1: nat, s2: nat, s3: nat)
    requires Or(m, a) == s1 && Or(s1, p) == s2 && Or(s2, g) == s3
    ensures Or(Or(Or(Or(m, a), p), g), k) == Or(s3, k)
  {
  }

  /** The CR1 options occupy disjoint bits, so their OR is their sum. */
  lemma Cr1OptionsSum(c: I2cInit)
    requires DocumentedOptions(c)
    ensures Cr1Options(c) == c.mode + c.arp + c.pec + c.generalCall + c.clockStretching
  {
    OrFlags(c.mode, c.arp, c.pec, c.generalCall, c.clockStretching);
  }

  /** A low nibble ORed with four flag bits above it, one at a time, is their sum. */
  lemma OrFlags(m: nat, a: nat, p: nat, g: nat, k: nat)
    requires m < 0x10 && (a == 0 || a == 0x10) && (p == 0 || p == 0x20)
    requires (g == 0 || g == 0x40) && (k == 0 || k == 0x80)
    ensures Or(Or(Or(Or(m, a), p), g), k) == m + a + p + g + k
  {
    BitValues();
    var s1 := m + a;
    var s2 := s1 + p;
    var s3 := s2 + g;
    OrAbove(m, a, 4);
    OrAbove(s1, p, 5);
    OrAbove(s2, g, 6);
    OrAbove(s3, k, 7);
    OrChain(m, a, p, g, k, s1, s2, s3);
  }

  /** A value built from a low nibble and four flag bits above it yields each part back. */
  lemma NibbleAndFlags(m: nat, a: nat, p: nat, g: nat, k: nat)
    requires m < 0x10 && (a == 0 || a == 0x10) && (p == 0 || p == 0x20)
    requires (g == 0 || g == 0x40) && (k == 0 || k == 0x80)
    ensures var x := m + a + p + g + k;
      x % 0x10 == m && (x / 0x10) % 2 * 0x10 == a && (x / 0x20) % 2 * 0x20 == p &&
      (x / 0x40) % 2 * 0x40 == g && x / 0x80 * 0x80 == k
  {
    if k == 0 {
      if g == 0 { FlagPairs(m, a, p, 0); } else { FlagPairs(m, a, p, 0x40); }
    } else {
      if g == 0 { FlagPairs(m, a, p, 0x80); } else { FlagPairs(m, a, p, 0xC0); }
    }
  }

  /** NibbleAndFlags with the two top flags fixed to the bits `top`. */
  lemma FlagPairs(m: nat, a: nat, p: nat, top: nat)
    requires m < 0x10 && (a == 0 || a == 0x10) && (p == 0 || p == 0x20)
    requires top == 0 || top == 0x40 || top == 0x80 || top == 0xC0
    ensures var x := m + a + p + top;
      x % 0x10 == m && (x / 0x10) % 2 * 0x10 == a && (x / 0x20) % 2 * 0x20 == p &&
      (x / 0x40) % 2 * 0x40 == top % 0x80 && x / 0x80 * 0x80 == top / 0x80 * 0x80
  {
  }

  /** The CR1 options can be read back field by field. */
  lemma Cr1OptionsFields(c: I2cInit)
    requires DocumentedOptions(c)
    ensures Cr1Options(c) % 0x10 == c.mode
    ensures (Cr1Options(c) / 0x10) % 2 * 0x10 == c.arp
    ensures (Cr1Options(c) / 0x20) % 2 * 0x20 == c.pec
    ensures (Cr1Options(c) / 0x40) % 2 * 0x40 == c.generalCall
    ensures Cr1Options(c) / 0x80 * 0x80 == c.clockStretching
  {
    Cr1OptionsSum(c);
    NibbleAndFlags(c.mode, c.arp, c.pec, c.generalCall, c.clockStretching);
  }

  /** OAR1 holds the own address in bits 1 to 13 and the fixed bit 14, for any 13-bit address. */
  lemma Oar1Fields(c: I2cInit)
    requires c.ownAddress1 < 0x2000
    ensures Oar1(c) == Oar1FixedBit + 2 * c.ownAddress1
    ensures (Oar1(c) / 2) % 0x2000 == c.ownAddress1 && Oar1(c) / 0x4000 == 1
  {
    BitValues();
    OrDisjoint(c.ownAddress1 * 2, 1, 14);
    OrCommutes(Oar1FixedBit, c.ownAddress1 * 2);
    AddressAboveBit(c.ownAddress1);
  }

  /** A 13-bit address shifted left by one, under bit 14, reads back from bits 1 to 13. */
  lemma AddressAboveBit(a: nat)
    requires a < 0x2000
    ensures ((0x4000 + 2 * a) / 2) % 0x2000 == a && (0x4000 + 2 * a) / 0x4000 == 1
  {
    assert (0x4000 + 2 * a) / 2 == 0x2000 + a;
  }

  /** OR does not depend on the order of its operands. */
  lemma {:induction false} OrCommutes(a: nat, b: nat)
    ensures Or(a, b) == Or(b, a)
    decreases a + b
  {
    if a != 0 && b != 0 {
      OrCommutes(a / 2, b / 2);
    }
  }

  /** OR never clears a digit, so it is at least each operand. */
  lemma {:induction false} OrAtLeast(a: nat, b: nat)
    ensures Or(a, b) >= a && Or(a, b) >= b
    decreases a + b
  {
    if a != 0 && b != 0 {
      OrAtLeast(a / 2, b / 2);
    }
  }

  // ---------------------------------------------------------------------
  // FREQ: the peripheral clock in MHz, from the APB1 prescaler
  // ---------------------------------------------------------------------

  /** PPRE1, the APB1 prescaler field: bits 8 to 10 of RCC->CFGR. */
  function ApbPrescaler(cfgr: u32): (p: nat)
    ensures p < 8
  {
    (cfgr / 0x100) % 8
  }

  /**
   * What i2c_init ORs into CR2 for prescaler field `p`, as written: case 7
   * has no break and falls through into the default case, and the default
   * case ORs in the core clock in Hz.
   */
  function FreqAsWritten(p: nat, sysclk: u32): nat
  {
    if p == 4 then sysclk / 2000000
    else if p == 5 then sysclk / 4000000
    else if p == 6 then sysclk / 8000000
    else if p == 7 then Or(sysclk / 16000000, sysclk)
    else sysclk
  }

  /** The APB1 division factor for prescaler field `p`: 1 below 4, then 2, 4, 8, 16. */
  function ApbDivider(p: nat): (d: nat)
    requires p < 8
    ensures d >= 1
  {
    if p < 4 then 1 else Bit(p - 3)
  }

  /** FREQ as evidently intended: the APB1 clock in whole MHz, for every prescaler value. */
  function Freq(p: nat, sysclk: u32): (f: nat)
    requires p < 8
    ensures f * (ApbDivider(p) * 1000000) <= sysclk < (f + 1) * (ApbDivider(p) * 1000000)
  {
    var d := ApbDivider(p) * 1000000;
    FloorDiv(sysclk, d);
    sysclk / d
  }

  /** Integer division rounds down: the quotient's multiple lies within one divisor below the dividend. */
  lemma FloorDiv(x: nat, d: nat)
    requires d > 0
    ensures x / d >= 0 && (x / d) * d <= x < (x / d + 1) * d
  {
    var q, r := x / d, x % d;
    assert x == q * d + r && 0 <= r < d;
    assert (q + 1) * d == q * d + d;
  }

  /** For the prescaler values 4, 5 and 6 the code computes the intended value. */
  lemma FreqAsWrittenAgrees(p: nat, sysclk: u32)
    requires 4 <= p <= 6
    ensures FreqAsWritten(p, sysclk) == Freq(p, sysclk)
  {
    assert Bit(1) == 2 && Bit(2) == 4 && Bit(3) == 8;
  }

  /**
   * Prescaler 7 at 72 MHz: the intended FREQ is 4 (MHz), but the fall-through
   * also ORs in 72000000, so CR2 receives a value of at least 72000000.
   */
  lemma FreqCase7FallsThrough()
    ensures Freq(7, 72000000) == 4
    ensures FreqAsWritten(7, 72000000) >= 72000000
  {
    assert Bit(4) == 16;
    OrAtLeast(72000000 / 16000000, 72000000);
  }

  /** Undivided APB1 at 8 MHz: the intended FREQ is 8, the code writes 8000000. */
  lemma FreqDefaultInHertz()
    ensures Freq(0, 8000000) == 8
    ensures FreqAsWritten(0, 8000000) == 8000000
  {
  }

  // ---------------------------------------------------------------------
  // CCR: the SCL clock divisor
  // ---------------------------------------------------------------------

  /** The FS/DUTY bits i2c_init ORs into CCR before it computes the divisor. */
  function CcrMode(c: I2cInit): nat
  {
    Or(c.fastMode, c.dutyCycle)
  }

  /** Both FS and DUTY are set in CCR: fast mode with the 16/9 duty cycle. */
  predicate FastDuty16By9(c: I2cInit)
  {
    TestBit(CcrMode(c), CcrFsBit) && TestBit(CcrMode(c), CcrDutyBit)
  }

  /** The divisor before the clamp: core clock over four times the bus speed, kept to 16 bits. */
  function RawDivisor(c: I2cInit, sysclk: u32): nat
    requires 0 < c.clockSpeed <= 400000
  {
    (sysclk / (4 * c.clockSpeed)) % 0x1_0000
  }

  /** The divisor i2c_init ORs into CCR: below 4 it becomes 1 in fast 16/9 mode and 4 otherwise. */
  function SclDivisor(c: I2cInit, sysclk: u32): (d: nat)
    requires 0 < c.clockSpeed <= 400000
    ensures d < 0x1_0000
    ensures RawDivisor(c, sysclk) >= 4 ==> d == RawDivisor(c, sysclk)
    ensures RawDivisor(c, sysclk) < 4 ==> d == (if FastDuty16By9(c) then 1 else 4)
  {
    var raw := RawDivisor(c, sysclk);
    if raw < 4 then (if FastDuty16By9(c) then 1 else 4) else raw
  }

  /**
   * The clamp's consequences: at least 1 in fast 16/9 mode and at least 4
   * otherwise; a computed 2 or 3 in fast 16/9 mode is lowered to 1.
   */
  lemma SclDivisorBounds(c: I2cInit, sysclk: u32)
    requires 0 < c.clockSpeed <= 400000
    ensures SclDivisor(c, sysclk) >= 1
    ensures !FastDuty16By9(c) ==> SclDivisor(c, sysclk) >= 4
    ensures FastDuty16By9(c) && 2 <= RawDivisor(c, sysclk) <= 3 ==> SclDivisor(c, sysclk) == 1
  {
  }

  /** CCR after i2c_init from its reset value: the mode bits and the divisor. */
  function Ccr(c: I2cInit, sysclk: u32): nat
    requires 0 < c.clockSpeed <= 400000
  {
    Or(CcrMode(c), SclDivisor(c, sysclk))
  }

  // ---------------------------------------------------------------------
  // TRISE: the maximum SCL rise time in peripheral clock cycles, plus one
  // ---------------------------------------------------------------------

  /**
   * The rise-time budget in ns: 300 (fast mode) when the speed is exactly
   * 400 kHz and FS is set in CCR, 1000 (standard mode) otherwise. These are
   * the t_r maxima of section 6.1 of the NXP I2C-bus specification, UM10204.
   */
  function RiseTime(c: I2cInit, ccr: nat): (t: nat)
    ensures t == 300 || t == 1000
  {
    if c.clockSpeed == 400000 && TestBit(ccr, CcrFsBit) then 300 else 1000
  }

  /** TRISE as i2c_init computes it from the rise time and CR2. */
  function Trise(c: I2cInit, ccr: nat, cr2: nat): (t: nat)
    ensures t >= 1
    ensures (t - 1) * 1000 <= RiseTime(c, ccr) * cr2 < t * 1000
  {
    RiseTime(c, ccr) * cr2 / 1000 + 1
  }

  /** A number in [2^k, 2^(k+1)) has digit k set. */
  lemma {:induction false} TestBitAbove(a: nat, k: nat)
    requires Bit(k) <= a < 2 * Bit(k)
    ensures TestBit(a, k)
    decreases k
  {
    if k > 0 {
      TestBitAbove(a / 2, k - 1);
    }
  }

  /** The width of CCR's divisor field: bits 0 to 11. */
  const CcrFieldLimit: nat := 0x1000

  /**
   * When the divisor fits CCR's 12-bit field, the FS and DUTY bits of CCR
   * are exactly those of the configuration.
   */
  lemma CcrModeBits(c: I2cInit, sysclk: u32)
    requires 0 < c.clockSpeed <= 400000
    requires SclDivisor(c, sysclk) < CcrFieldLimit
    ensures TestBit(Ccr(c, sysclk), CcrFsBit) <==> TestBit(CcrMode(c), CcrFsBit)
    ensures TestBit(Ccr(c, sysclk), CcrDutyBit) <==> TestBit(CcrMode(c), CcrDutyBit)
  {
    BitValues();
    TestBitOr(CcrMode(c), SclDivisor(c, sysclk), CcrFsBit);
    TestBitOr(CcrMode(c), SclDivisor(c, sysclk), CcrDutyBit);
    TestBitHigh(SclDivisor(c, sysclk), 12, CcrFsBit);
    TestBitHigh(SclDivisor(c, sysclk), 12, CcrDutyBit);
  }

  /**
   * Nothing keeps the divisor inside the 12-bit field: a standard-mode
   * configuration at 100 Hz with a 72 MHz core clock yields the divisor
   * 0xBF20, which sets FS in CCR although fast mode is off.
   */
  lemma CcrDivisorOverflow()
    ensures var c := StructInit().(clockSpeed := 100, fastMode := FastModeDisable);
      !TestBit(CcrMode(c), CcrFsBit) && SclDivisor(c, 72000000) == 0xBF20 &&
      TestBit(Ccr(c, 72000000), CcrFsBit)
  {
    var c := StructInit().(clockSpeed := 100, fastMode := FastModeDisable);
    assert CcrMode(c) == 0;
    TestBitOfZero(CcrFsBit);
    assert SclDivisor(c, 72000000) == 0xBF20;
    TestBitOr(CcrMode(c), 0xBF20, CcrFsBit);
    BitValues();
    TestBitAbove(0xBF20, CcrFsBit);
  }

  /**
   * What the defaults of i2c_structInit make i2c_init program: no CR1
   * option bits, own address 0x7C in OAR1, no OAR2, FS set with duty 2 in
   * CCR, and hence the 300 ns rise time: 11 cycles (plus one) at 36 MHz.
   */
  lemma StructInitRegisters(sysclk: u32)
    ensures DocumentedOptions(StructInit()) && Cr1Options(StructInit()) == 0
    ensures Oar1(StructInit()) == 0x40F8 && !WritesOar2(StructInit())
    ensures TestBit(CcrMode(StructInit()), CcrFsBit) && !FastDuty16By9(StructInit())
    ensures TestBit(Ccr(StructInit(), sysclk), CcrFsBit)
    ensures RiseTime(StructInit(), Ccr(StructInit(), sysclk)) == 300
    ensures Trise(StructInit(), Ccr(StructInit(), sysclk), 36) == 11
  {
    var c := StructInit();
    Cr1OptionsSum(c);
    Oar1Fields(c);
    BitValues();
    assert CcrMode(c) == Bit(CcrFsBit);
    TestBitOfBit(CcrFsBit, CcrFsBit);
    TestBitOfBit(CcrFsBit, CcrDutyBit);
    TestBitOr(CcrMode(c), SclDivisor(c, sysclk), CcrFsBit);
  }

  // ---------------------------------------------------------------------
  // The registers i2c_init leaves behind
  // ---------------------------------------------------------------------

  /** PE, the peripheral enable bit of CR1, which i2c_init sets last. */
  const Cr1Pe: nat := 0x0001

  /** The I2C registers i2c_init programs. */
  datatype Registers = Registers(cr1: nat, cr2: nat, ccr: nat, oar1: nat, oar2: nat, trise: nat)

  /** Every register at its reset value, as the software reset leaves them. */
  const ResetRegisters := Registers(0, 0, 0, 0, 0, 0)

  /**
   * The registers after i2c_init for configuration `c`, APB1 prescaler
   * field `p` and core clock `sysclk`, with FREQ as evidently intended.
   */
  function InitRegisters(c: I2cInit, p: nat, sysclk: u32): Registers
    requires 0 < c.clockSpeed <= 400000 && p < 8
  {
    Registers(
      Or(Cr1Options(c), Cr1Pe),
      Freq(p, sysclk),
      Ccr(c, sysclk),
      Oar1(c),
      if WritesOar2(c) then Oar2(c) else 0,
      Trise(c, Ccr(c, sysclk), Freq(p, sysclk)))
  }

  /**
   * With documented options, i2c_init enables the peripheral on top of the
   * option bits, keeps the own address readable in OAR1 and writes OAR2
   * exactly when dual addressing is enabled.
   */
  lemma InitRegistersMeaning(c: I2cInit, p: nat, sysclk: u32)
    requires 0 < c.clockSpeed <= 400000 && p < 8
    requires DocumentedOptions(c) && c.ownAddress1 < 0x2000
    ensures InitRegisters(c, p, sysclk).cr1 == Cr1Options(c) + Cr1Pe
    ensures (InitRegisters(c, p, sysclk).oar1 / 2) % 0x2000 == c.ownAddress1
    ensures WritesOar2(c) <==> InitRegisters(c, p, sysclk).oar2 != 0
  {
    Cr1Enabled(c);
    Oar1Fields(c);
    if WritesOar2(c) {
      OrAtLeast(c.dualAddressingMode, c.ownAddress2 * 2);
    }
  }

  /**
   * i2c_init programs FREQ as the APB1 clock in whole MHz and TRISE as the
   * rise-time budget in those clock cycles, rounded down, plus one.
   */
  lemma InitClockRegisters(c: I2cInit, p: nat, sysclk: u32)
    requires 0 < c.clockSpeed <= 400000 && p < 8
    ensures var r := InitRegisters(c, p, sysclk);
      r.cr2 * (ApbDivider(p) * 1000000) <= sysclk < (r.cr2 + 1) * (ApbDivider(p) * 1000000) &&
      (r.trise - 1) * 1000 <= RiseTime(c, r.ccr) * r.cr2 < r.trise * 1000
  {
  }

  /** The documented CR1 options leave bit 0 clear, so setting PE adds exactly one. */
  lemma Cr1Enabled(c: I2cInit)
    requires DocumentedOptions(c)
    ensures Or(Cr1Options(c), Cr1Pe) == Cr1Options(c) + Cr1Pe
  {
    Cr1OptionsSum(c);
    EvenOptions(c);
    SetBitZero(Cr1Options(c));
  }

  /** No documented CR1 option value uses bit 0. */
  lemma EvenOptions(c: I2cInit)
    requires DocumentedOptions(c)
    ensures (c.mode + c.arp + c.pec + c.generalCall + c.clockStretching) % 2 == 0
  {
    var h := c.mode / 2 + c.arp / 2 + c.pec / 2 + c.generalCall / 2 + c.clockStretching / 2;
    assert c.mode + c.arp + c.pec + c.generalCall + c.clockStretching == 2 * h;
  }

  /** Setting bit 0 of an even number adds one. */
  lemma SetBitZero(s: nat)
    requires s % 2 == 0
    ensures Or(s, 1) == s + 1
  {
    if s != 0 {
      assert Or(s / 2, 0) == s / 2;
    }
  }
}
