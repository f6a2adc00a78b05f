/** Which bits csr_write keeps, bit by bit, and the words of the encoded instructions. */
module CsrBits {
  import opened Basics
  import opened Powers
  import opened Bits
  import opened BootInterp

  // ---- masks --------------------------------------------------------------------------------------

  lemma {:induction false} MaskedBits(held: nat, val: nat, mask: nat, i: nat)
    ensures Bit(Masked(held, val, mask), i) <==> if Bit(mask, i) then Bit(val, i) else Bit(held, i)
    decreases held + val
  {
    hide Bit;
    if held == 0 && val == 0 {
      BitOfZero(i);
    } else {
      var r := Masked(held, val, mask);
      var rest, bit := Masked(held / 2, val / 2, mask / 2), if mask % 2 == 1 then val % 2 else held % 2;
      assert r == bit + 2 * rest;
      DivModUnique(r, 2, rest, bit);
      if i == 0 {
        BitZero(r);
        BitZero(held);
        BitZero(val);
        BitZero(mask);
      } else {
        BitHalf(r, i - 1);
        BitHalf(held, i - 1);
        BitHalf(val, i - 1);
        BitHalf(mask, i - 1);
        MaskedBits(held / 2, val / 2, mask / 2, i - 1);
      }
    }
  }

  /** The same by repeated halving. */
  predicate Nth(n: nat, i: nat)
    decreases i
  {
    if i == 0 then n % 2 == 1 else Nth(n / 2, i - 1)
  }

  lemma {:induction false} NthIs(n: nat, i: nat)
    ensures Nth(n, i) <==> Bit(n, i)
    decreases i
  {
    hide Bit;
    if i == 0 {
      BitZero(n);
    } else {
      BitHalf(n, i - 1);
      NthIs(n / 2, i - 1);
    }
  }

  lemma MstatusMask(i: nat)
    ensures Bit(0x7e19aa, i) <==> i in {1, 3, 5, 7, 8, 11, 12, 17, 18, 19, 20, 21, 22}
  {
    hide *;
    TwelveBits();
    if i < 12 {
      MstatusLow(i);
    } else {
      ShrUnique(0x7e19aa, 12, 0x7e1, 0x9aa);
      BitAbove(0x7e19aa, 12, i - 12);
      if i < 23 {
        MstatusHigh(i - 12);
      } else {
        BitBeyond(0x7e1, 11, i - 12);
      }
    }
  }

  lemma MstatusLow(i: nat)
    requires i < 12
    ensures Bit(0x7e19aa, i) <==> i in {1, 3, 5, 7, 8, 11}
  {
    hide *;
    NthIs(0x7e19aa, i);
    MstatusLowFacts();
  }

  lemma MstatusLowFacts()
    ensures !Nth(0x7e19aa, 0) && Nth(0x7e19aa, 1) && !Nth(0x7e19aa, 2) && Nth(0x7e19aa, 3)
    ensures !Nth(0x7e19aa, 4) && Nth(0x7e19aa, 5) && !Nth(0x7e19aa, 6) && Nth(0x7e19aa, 7)
    ensures Nth(0x7e19aa, 8) && !Nth(0x7e19aa, 9) && !Nth(0x7e19aa, 10) && Nth(0x7e19aa, 11)
  {
  }

  lemma MstatusHigh(i: nat)
    requires i < 11
    ensures Bit(0x7e1, i) <==> i in {0, 5, 6, 7, 8, 9, 10}
  {
    hide *;
    NthIs(0x7e1, i);
    MstatusHighFacts();
  }

  lemma MstatusHighFacts()
    ensures Nth(0x7e1, 0) && !Nth(0x7e1, 1) && !Nth(0x7e1, 2) && !Nth(0x7e1, 3)
    ensures !Nth(0x7e1, 4) && Nth(0x7e1, 5) && Nth(0x7e1, 6) && Nth(0x7e1, 7)
    ensures Nth(0x7e1, 8) && Nth(0x7e1, 9) && Nth(0x7e1, 10)
  {
  }

  lemma MedelegMask(i: nat)
    ensures Bit(0xb109, i) <==> i in {0, 3, 8, 12, 13, 15}
  {
    hide *;
    TwelveBits();
    if i < 12 {
      MedelegLow(i);
    } else {
      ShrUnique(0xb109, 12, 0xb, 0x109);
      BitAbove(0xb109, 12, i - 12);
      if i < 16 {
        MedelegHigh(i - 12);
      } else {
        BitBeyond(0xb, 4, i - 12);
      }
    }
  }

  lemma MedelegLow(i: nat)
    requires i < 12
    ensures Bit(0xb109, i) <==> i in {0, 3, 8}
  {
    hide *;
    NthIs(0xb109, i);
    MedelegLowFacts();
  }

  lemma MedelegLowFacts()
    ensures Nth(0xb109, 0) && !Nth(0xb109, 1) && !Nth(0xb109, 2) && Nth(0xb109, 3)
    ensures !Nth(0xb109, 4) && !Nth(0xb109, 5) && !Nth(0xb109, 6) && !Nth(0xb109, 7)
    ensures Nth(0xb109, 8) && !Nth(0xb109, 9) && !Nth(0xb109, 10) && !Nth(0xb109, 11)
  {
  }

  lemma MedelegHigh(i: nat)
    requires i < 4
    ensures Bit(0xb, i) <==> i in {0, 1, 3}
  {
    hide *;
    NthIs(0xb, i);
    MedelegHighFacts();
  }

  lemma MedelegHighFacts()
    ensures Nth(0xb, 0) && Nth(0xb, 1) && !Nth(0xb, 2) && Nth(0xb, 3)
  {
  }

  lemma SoftwareMask(i: nat)
    ensures Bit(0x222, i) <==> i in {1, 5, 9}
  {
    hide *;
    TwelveBits();
    if i < 10 {
      SoftwareLow(i);
    } else {
      BitBeyond(0x222, 10, i);
    }
  }

  lemma SoftwareLow(i: nat)
    requires i < 10
    ensures Bit(0x222, i) <==> i in {1, 5, 9}
  {
    hide *;
    NthIs(0x222, i);
    SoftwareLowFacts();
  }

  lemma SoftwareLowFacts()
    ensures !Nth(0x222, 0) && Nth(0x222, 1) && !Nth(0x222, 2) && !Nth(0x222, 3)
    ensures !Nth(0x222, 4) && Nth(0x222, 5) && !Nth(0x222, 6) && !Nth(0x222, 7)
    ensures !Nth(0x222, 8) && Nth(0x222, 9)
  {
  }

  lemma MieMask(i: nat)
    ensures Bit(0x40aaa, i) <==> i in {1, 3, 5, 7, 9, 11, 18}
  {
    hide *;
    TwelveBits();
    if i < 12 {
      MieLow(i);
    } else {
      ShrUnique(0x40aaa, 12, 0x40, 0xaaa);
      BitAbove(0x40aaa, 12, i - 12);
      if i < 19 {
        MieHigh(i - 12);
      } else {
        BitBeyond(0x40, 7, i - 12);
      }
    }
  }

  lemma MieLow(i: nat)
    requires i < 12
    ensures Bit(0x40aaa, i) <==> i in {1, 3, 5, 7, 9, 11}
  {
    hide *;
    NthIs(0x40aaa, i);
    MieLowFacts();
  }

  lemma MieLowFacts()
    ensures !Nth(0x40aaa, 0) && Nth(0x40aaa, 1) && !Nth(0x40aaa, 2) && Nth(0x40aaa, 3)
    ensures !Nth(0x40aaa, 4) && Nth(0x40aaa, 5) && !Nth(0x40aaa, 6) && Nth(0x40aaa, 7)
    ensures !Nth(0x40aaa, 8) && Nth(0x40aaa, 9) && !Nth(0x40aaa, 10) && Nth(0x40aaa, 11)
  {
  }

  lemma MieHigh(i: nat)
    requires i < 7
    ensures Bit(0x40, i) <==> i in {6}
  {
    hide *;
    NthIs(0x40, i);
    MieHighFacts();
  }

  lemma MieHighFacts()
    ensures !Nth(0x40, 0) && !Nth(0x40, 1) && !Nth(0x40, 2) && !Nth(0x40, 3)
    ensures !Nth(0x40, 4) && !Nth(0x40, 5) && Nth(0x40, 6)
  {
  }

  lemma TwelveBits()
    ensures Pow2(4) == 16 && Pow2(7) == 128 && Pow2(10) == 1024 && Pow2(11) == 2048 && Pow2(12) == 4096
  {
  }

  /** SIE, MIE, SPIE, MPIE, SPP, MPP, MPRV, SUM, MXR, TVM, TW and TSR. */
  lemma MstatusBits(addrLen: nat, held: nat, val: nat, i: nat)
    ensures Bit(Legal(addrLen, 0x300, held, val), i) <==>
            if i in {1, 3, 5, 7, 8, 11, 12, 17, 18, 19, 20, 21, 22} then Bit(val, i) else Bit(held, i)
  {
    hide Bit, Masked;
    MstatusMask(i);
    MaskedBits(held, val, 0x7e19aa, i);
  }

  /** Exceptions that can be delegated. */
  lemma MedelegBits(addrLen: nat, held: nat, val: nat, i: nat)
    ensures Bit(Legal(addrLen, 0x302, held, val), i) <==> if i in {0, 3, 8, 12, 13, 15} then Bit(val, i) else Bit(held, i)
  {
    hide Bit, Masked;
    MedelegMask(i);
    MaskedBits(held, val, 0xb109, i);
  }

  /** SSIP, STIP and SEIP can be delegated, and made pending by software. */
  lemma MidelegMipBits(addrLen: nat, csr: nat, held: nat, val: nat, i: nat)
    requires csr == 0x303 || csr == 0x344
    ensures Bit(Legal(addrLen, csr, held, val), i) <==> if i in {1, 5, 9} then Bit(val, i) else Bit(held, i)
  {
    hide Bit, Masked;
    SoftwareMask(i);
    MaskedBits(held, val, 0x222, i);
  }

  /** The three interrupts of each level, and the counter overflow interrupt. */
  lemma MieBits(addrLen: nat, held: nat, val: nat, i: nat)
    ensures Bit(Legal(addrLen, 0x304, held, val), i) <==> if i in {1, 3, 5, 7, 9, 11, 18} then Bit(val, i) else Bit(held, i)
  {
    hide Bit, Masked;
    MieMask(i);
    MaskedBits(held, val, 0x40aaa, i);
  }

  /** An event selector keeps its set and its event mask. */
  lemma EventBits(addrLen: nat, csr: nat, held: nat, val: nat, i: nat)
    requires 0x323 <= csr <= 0x33f
    ensures Bit(Legal(addrLen, csr, held, val), i) <==> (i < 3 || 8 <= i < 32) && Bit(val, i)
  {
    hide Bit, Masked;
    MaskedBits(0, val, 0xffff_ff07, i);
    BitOfZero(i);
    EventMask(i);
  }

  lemma EventMask(i: nat)
    ensures Bit(0xffff_ff07, i) <==> i < 3 || 8 <= i < 32
  {
    hide *;
    SmallPowers();
    Pow2Add(4, 4);
    Ones(24, i);
    Ones(3, i);
    PowerSteps();
    BitJoined(0xffff_ff07, 0xff_ffff, 7, 8, i);
    if i >= 8 {
      Ones(24, i - 8);
    }
  }

  lemma PowerSteps()
    ensures Pow2(8) == 0x100 && Pow2(24) == 0x100_0000 && Pow2(38) == 0x40_0000_0000
  {
    hide *;
    SmallPowers();
    Pow2Add(4, 4);
    Pow2Add(8, 8);
    Pow2Add(8, 16);
    Pow2Add(24, 8);
    Pow2Add(32, 4);
    Pow2Add(36, 2);
  }

  /** The lower eight of the sixteen addresses exist, with 38 bits. */
  lemma PmpAddrBits(addrLen: nat, csr: nat, held: nat, val: nat, i: nat)
    requires 0x3b0 <= csr <= 0x3bf
    ensures Bit(Legal(addrLen, csr, held, val), i) <==> if csr < 0x3b8 then i < 38 && Bit(val, i) else Bit(held, i)
  {
    hide Bit, Masked;
    if csr < 0x3b8 {
      MaskedBits(0, val, 0x3f_ffff_ffff, i);
      BitOfZero(i);
      PowerSteps();
      Ones(38, i);
    }
  }

  /** A locked byte of pmpcfg0 stays; otherwise it is taken over; bits 5 and 6 are never set. */
  lemma {:induction false} PmpCfgBits(held: nat, val: nat, j: nat, b: nat)
    requires b < 8
    ensures Bit(PmpCfg(held, val), 8 * j + b) <==>
            b != 5 && b != 6 && if Bit(held, 8 * j + 7) then Bit(held, 8 * j + b) else Bit(val, 8 * j + b)
    decreases held + val
  {
    hide Bit;
    if held == 0 && val == 0 {
      BitOfZero(8 * j + b);
      BitOfZero(8 * j + 7);
    } else {
      var h, v := held % 256, val % 256;
      var cfg := if held / 128 % 2 == 0 then v else h;
      var rest := PmpCfg(held / 256, val / 256);
      var r := PmpCfg(held, val);
      assert r == cfg - cfg / 32 % 4 * 32 + 256 * rest;
      LockBit(held);
      hide PmpCfg;
      ByteJoined(held / 256, h, held, j, b);
      ByteJoined(held / 256, h, held, j, 7);
      ByteJoined(val / 256, v, val, j, b);
      Stripped(cfg, b);
      ByteJoined(rest, cfg - cfg / 32 % 4 * 32, r, j, b);
      if j > 0 {
        PmpCfgBits(held / 256, val / 256, j - 1, b);
      }
    }
  }

  lemma ByteJoined(hi: nat, low: nat, n: nat, j: nat, b: nat)
    requires n == hi * 256 + low && low < 256 && b < 8
    ensures Bit(n, 8 * j + b) <==> if j == 0 then Bit(low, b) else Bit(hi, 8 * (j - 1) + b)
  {
    hide *;
    PowerSteps();
    BitJoined(n, hi, low, 8, 8 * j + b);
    assert j > 0 ==> 8 * j + b - 8 == 8 * (j - 1) + b;
  }

  lemma LockBit(held: nat)
    ensures held / 128 % 2 == 1 <==> Bit(held % 256, 7)
  {
    assert held % 256 / 128 % 2 == held / 128 % 2;
    assert Pow2(7) == 128;
    hide Pow2;
  }

  lemma Stripped(cfg: nat, b: nat)
    requires cfg < 256 && b < 8
    ensures 0 <= cfg - cfg / 32 % 4 * 32 < 256
    ensures Bit(cfg - cfg / 32 % 4 * 32, b) <==> b != 5 && b != 6 && Bit(cfg, b)
  {
    var low, mid, top := cfg % 32, cfg / 32 % 4, cfg / 128;
    assert cfg == top * 128 + mid * 32 + low && top < 2;
    var n := top * 128 + low;
    assert cfg - cfg / 32 % 4 * 32 == n;
    assert Pow2(5) == 32 && Pow2(2) == 4;
    hide *;
    BitJoined(cfg, top * 4 + mid, low, 5, b);
    BitJoined(n, top * 4, low, 5, b);
    if b >= 5 {
      BitJoined(top * 4 + mid, top, mid, 2, b - 5);
      BitJoined(top * 4, top, 0, 2, b - 5);
      BitOfZero(b - 5);
    }
  }

  // ---- the other registers -----------------------------------------------------------------------

  /** mtvec and stvec: bit 1 is clear, and in mode 1 the table is aligned to 256 bytes. */
  lemma TrapVectorBits(val: nat, mask: nat, i: nat)
    ensures Bit(TrapVector(val, mask), i) <==> Bit(mask, i) && Bit(val, i) && (val % 2 == 1 ==> i == 0 || i >= 8)
  {
    hide Bit, Masked;
    var v := if val % 2 == 1 then val - val % 256 + 1 else val;
    MaskedBits(0, v, mask, i);
    BitOfZero(i);
    if val % 2 == 1 {
      AlignedVector(val, i);
    }
  }

  lemma AlignedVector(val: nat, i: nat)
    requires val % 2 == 1
    ensures Bit(val - val % 256 + 1, i) <==> Bit(val, i) && (i == 0 || i >= 8)
  {
    hide *;
    var hi, low := val / 256, val % 256;
    PowerSteps();
    SmallPowers();
    BitJoined(val, hi, low, 8, i);
    BitJoined(val - low + 1, hi, 1, 8, i);
    BitZero(val);
    Ones(1, i);
  }

  /** The masks of the two: all 64 bits, or the physical address, but for bit 1. */
  lemma VectorMask(m: nat, k: nat, i: nat)
    requires k >= 2 && m + 3 == Pow2(k)
    ensures Bit(m, i) <==> i < k && i != 1
  {
    hide *;
    SmallPowers();
    Pow2Succ(k - 1);
    Pow2Succ(k - 2);
    BitJoined(m, Pow2(k - 2) - 1, 1, 2, i);
    Ones(1, i);
    if i >= 2 {
      Ones(k - 2, i - 2);
    }
  }

  lemma StvecBits(addrLen: nat, held: nat, val: nat, i: nat)
    ensures Bit(Legal(addrLen, 0x105, held, val), i) <==>
            i < 64 && i != 1 && Bit(val, i) && (val % 2 == 1 ==> i == 0 || i >= 8)
  {
    hide Bit, TrapVector;
    SixtyFour();
    VectorMask(DWORD - 3, 64, i);
    TrapVectorBits(val, DWORD - 3, i);
  }

  lemma MtvecBits(addrLen: nat, held: nat, val: nat, i: nat)
    requires 2 <= addrLen < 64
    ensures Bit(Legal(addrLen, 0x305, held, val), i) <==>
            i < addrLen && i != 1 && Bit(val, i) && (val % 2 == 1 ==> i == 0 || i >= 8)
  {
    hide Bit, TrapVector, Pow2;
    SixtyFour();
    Pow2Mono(addrLen, 63);
    Pow2Mono(2, addrLen);
    SmallPowers();
    Pow2Succ(63);
    VectorMask(Pow2(addrLen) - 3, addrLen, i);
    DivModUnique(Pow2(addrLen) + DWORD - 3, DWORD, 1, Pow2(addrLen) - 3);
    TrapVectorBits(val, Pow2(addrLen) - 3, i);
  }

  lemma SixtyFour()
    ensures Pow2(64) == DWORD && Pow2(63) == 0x8000_0000_0000_0000
  {
    hide *;
    PowerSteps();
    Pow2Add(24, 8);
    Pow2Add(32, 32);
    Pow2Succ(63);
    assert DWORD == 0x1_0000_0000_0000_0000 by {
      DoubleWordIs();
    }
  }

  lemma DoubleWordIs()
    ensures DWORD == 0x1_0000_0000_0000_0000 && WORD == 0x1_0000_0000
  {
  }

  /** Counter controls have 32 bits, and bit 1 of mcountinhibit is never set. */
  lemma CounterBits(addrLen: nat, csr: nat, held: nat, val: nat, i: nat)
    requires csr == 0x106 || csr == 0x306 || csr == 0x320
    ensures Bit(Legal(addrLen, csr, held, val), i) <==> i < 32 && (csr == 0x320 ==> i != 1) && Bit(val, i)
  {
    var v := if csr == 0x320 then val - val / 2 % 2 * 2 else val;
    assert Legal(addrLen, csr, held, val) == v % WORD;
    hide *;
    WordPower();
    LowIs(v, 32);
    if i < 32 {
      BitBelow(v, 32, i);
    } else {
      BitBeyond(v % WORD, 32, i);
    }
    if csr == 0x320 {
      Inhibited(val, v, i);
    }
  }

  lemma WordPower()
    ensures Pow2(32) == WORD
  {
    hide *;
    PowerSteps();
    Pow2Add(24, 8);
    DoubleWordIs();
  }

  lemma LowIs(n: nat, k: nat)
    ensures Low(n, k) == n % Pow2(k) && n % Pow2(k) < Pow2(k)
  {
  }

  lemma Inhibited(val: nat, v: nat, i: nat)
    requires v == val - val / 2 % 2 * 2
    ensures Bit(v, i) <==> i != 1 && Bit(val, i)
  {
    var q, b1, b0 := val / 4, val / 2 % 2, val % 2;
    assert val == q * 4 + (b1 * 2 + b0);
    hide *;
    SmallPowers();
    BitJoined(val, q, b1 * 2 + b0, 2, i);
    BitJoined(v, q, b0, 2, i);
    if i < 2 {
      BitJoined(b1 * 2 + b0, b1, b0, 1, i);
      BitJoined(b0, 0, b0, 1, i);
      BitOfZero(0);
    }
  }

  /** What is written to misa or a counter is recorded as it is. */
  lemma CountersHold(addrLen: nat, csr: nat, held: nat, val: nat)
    requires csr == 0x301 || csr == 0xb00 || 0xb02 <= csr <= 0xb1f
    ensures Legal(addrLen, csr, held, val) == val
  {
  }

  /** Only one trigger exists, and the second pmpcfg register does not. */
  lemma AbsentRegisters(addrLen: nat, held: nat, val: nat)
    ensures Legal(addrLen, 0x7a0, held, val) == 0 && Legal(addrLen, 0x3a2, held, val) == held
    ensures Legal(addrLen, 0x3a0, held, val) == PmpCfg(held, val)
  {
  }

  /** mcause and scause: the interrupt bit and the lowest bits. */
  lemma CauseBitsAre(val: nat, k: nat, i: nat)
    requires k < 63 && val < DWORD
    ensures Bit(CauseBits(val, Pow2(k)), i) <==> (i == 63 || i < k) && Bit(val, i)
  {
    var hi, low := val / 0x8000_0000_0000_0000, val % Pow2(k);
    assert Low(val, k) == low;
    assert CauseBits(val, Pow2(k)) == hi * 0x8000_0000_0000_0000 + low;
    hide *;
    SixtyFour();
    Pow2Mono(k, 63);
    ShrUnique(val, 63, hi, val % 0x8000_0000_0000_0000);
    BitJoined(hi * Pow2(63) + low, hi, low, 63, i);
    if i < k {
      BitBelow(val, k, i);
    } else if i < 63 {
      BitBeyond(low, k, i);
    } else {
      BitAbove(val, 63, i - 63);
      SmallPowers();
      DoubleWordIs();
      if i > 63 {
        BitBeyond(hi, 1, i - 63);
      }
    }
  }

  /** satp: the mode and the page number, without an address space identifier. */
  lemma SatpBitsAre(val: nat, i: nat)
    ensures Bit(SatpBits(val), i) <==> (i < 44 || i >= 60) && Bit(val, i)
  {
    var hi, low := val / 0x1000_0000_0000_0000, val % 0x1000_0000_0000;
    assert SatpBits(val) == hi * 0x1000_0000_0000_0000 + low;
    hide *;
    SatpPowers();
    Pow2Mono(44, 60);
    ShrUnique(val, 60, hi, val % 0x1000_0000_0000_0000);
    ShrUnique(val, 44, val / 0x1000_0000_0000, low);
    BitJoined(hi * Pow2(60) + low, hi, low, 60, i);
    if i < 44 {
      BitBelow(val, 44, i);
    } else if i < 60 {
      BitBeyond(low, 44, i);
    } else {
      BitAbove(val, 60, i - 60);
    }
  }

  lemma SatpPowers()
    ensures Pow2(44) == 0x1000_0000_0000 && Pow2(60) == 0x1000_0000_0000_0000
  {
    hide *;
    PowerSteps();
    SmallPowers();
    Pow2Add(4, 4);
    Pow2Add(24, 8);
    Pow2Add(8, 4);
    Pow2Add(32, 12);
    Pow2Add(44, 8);
    Pow2Add(52, 8);
  }

  /** dcsr: stopcount, stoptime and the privilege. */
  lemma DcsrBitsAre(dcsr: nat, val: nat, i: nat)
    ensures Bit(DcsrBits(dcsr, val), i) <==> if i in {0, 1, 9, 10} then Bit(val, i) else Bit(dcsr, i)
  {
    var d3, d1, v2, v0 := dcsr / 2048, dcsr / 4 % 128, val / 512 % 4, val % 4;
    assert DcsrBits(dcsr, val) == d3 * 2048 + v2 * 512 + d1 * 4 + v0;
    FourParts(dcsr);
    FourParts(val);
    hide *;
    Parts(d3, v2, d1, v0, i);
    Parts(d3, dcsr / 512 % 4, d1, dcsr % 4, i);
    Parts(val / 2048, v2, val / 4 % 128, v0, i);
  }

  lemma FourParts(n: nat)
    ensures n == n / 2048 * 2048 + n / 512 % 4 * 512 + n / 4 % 128 * 4 + n % 4
  {
    assert n / 512 == n / 2048 * 4 + n / 512 % 4;
    assert n / 4 == n / 512 * 128 + n / 4 % 128;
  }

  lemma Parts(a: nat, b: nat, c: nat, d: nat, i: nat)
    requires b < 4 && c < 128 && d < 4
    ensures Bit(a * 2048 + b * 512 + c * 4 + d, i) <==>
            if i < 2 then Bit(d, i) else if i < 9 then Bit(c, i - 2) else if i < 11 then Bit(b, i - 9) else Bit(a, i - 11)
  {
    hide *;
    SmallPowers();
    SevenBits();
    BitJoined(a * 2048 + b * 512 + c * 4 + d, a * 512 + b * 128 + c, d, 2, i);
    if i >= 2 {
      BitJoined(a * 512 + b * 128 + c, a * 4 + b, c, 7, i - 2);
      if i >= 9 {
        BitJoined(a * 4 + b, a, b, 2, i - 9);
      }
    }
  }

  lemma SevenBits()
    ensures Pow2(7) == 128
  {
  }

  /** Instruction addresses lose their last bit, or the last two without compressed instructions. */
  lemma InsnAlignedBits(val: nat, misaC: bool, i: nat)
    ensures Bit(InsnAligned(val, misaC), i) <==> i >= (if misaC then 1 else 2) && Bit(val, i)
  {
    var k, g := if misaC then 1 else 2, if misaC then 2 else 4;
    var q, low := val / g, val % g;
    assert val == q * g + low && InsnAligned(val, misaC) == q * g;
    hide *;
    SmallPowers();
    BitJoined(val, q, low, k, i);
    BitJoined(q * g, q, 0, k, i);
    BitOfZero(i);
  }

  /** Bare, Sv39 and Sv48. */
  lemma SatpModes(val: nat)
    requires val < DWORD
    ensures SatpMode(val) <==> val < 0x1000_0000_0000_0000 || 0x8000_0000_0000_0000 <= val < 0xa000_0000_0000_0000
  {
    var mode := val / 0x1000_0000_0000_0000;
    assert mode % 16 == mode;
  }

  // ---- instruction words ----------------------------------------------------------------------------

  /** auipc x5, 1; addi x5, x5, -8; addi x1, x0, 3; ld x5, 0(x6); sd x2, 0(x1); fld f3, 0(x1). */
  lemma KnownWords()
    ensures CreateAuipc(5, 0x1000) == 0x1297 && CreateAddi(5, 0xff8) == 0xff82_8293 && CreateSeti(1, 3) == 0x30_0093
    ensures CreateLd(5, 6) == 0x3_3283 && CreateSd(1, 2) == 0x20_b023 && CreateFld(3, 1) == 0xb187
    ensures CreateCsrrw(1, 0x340) == 0x3400_9073 && CreateCsrrs(1, 0x7b2) == 0x7b20_20f3
  {
  }

  /** The fields of branches, stores and jumps are read back, the immediate from its scattered bits. */
  lemma BranchFields(rs1: nat, rs2: nat, b11: nat, b4: nat, b10: nat, b12: nat)
    requires rs1 < 32 && rs2 < 32 && b11 < 2 && b4 < 16 && b10 < 64 && b12 < 2
    ensures var w := 0x63 + 0x80 * (b11 + 2 * (b4 + 16 * (8 * (rs1 + 32 * (rs2 + 32 * (b10 + 64 * b12))))));
            && Opcode(w) == 0x63 && Funct3(w) == 0 && Rs1(w) == rs1 && Rs2(w) == rs2
            && ImmB(w) == 2 * b4 + 32 * b10 + 2048 * b11 - 4096 * b12
  {
    var g := b10 + 64 * b12;
    var f := rs2 + 32 * g;
    var e := rs1 + 32 * f;
    var c := b4 + 16 * (8 * e);
    var a := b11 + 2 * c;
    var w := 0x63 + 0x80 * a;
    assert w / 0x80 == a && a / 2 == c && c / 16 == 8 * e && 8 * e / 8 == e && e / 32 == f && f / 32 == g && g / 64 == b12;
    ScatteredQuotients(w, a, c, 8 * e, e, f, g, b12);
  }

  lemma ScatteredQuotients(w: nat, a: nat, c: nat, d: nat, e: nat, f: nat, g: nat, h: nat)
    requires w / 0x80 == a && a / 2 == c && c / 16 == d && d / 8 == e && e / 32 == f && f / 32 == g && g / 64 == h
    ensures w / 0x100 == c && w / 0x1000 == d && w / 0x8000 == e && w / 0x10_0000 == f && w / 0x200_0000 == g
    ensures w / 0x8000_0000 == h
  {
  }

  lemma StoreFields(rs1: nat, rs2: nat, low: nat, high: nat)
    requires rs1 < 32 && rs2 < 32 && low < 32 && high < 128
    ensures var w := 0x23 + 0x80 * (low + 32 * (3 + 8 * (rs1 + 32 * (rs2 + 32 * high))));
            && Opcode(w) == 0x23 && Funct3(w) == 3 && Rs1(w) == rs1 && Rs2(w) == rs2
            && ImmS(w) == low + 32 * high - (if high >= 64 then 4096 else 0)
  {
    var f := rs2 + 32 * high;
    var e := rs1 + 32 * f;
    var d := 3 + 8 * e;
    var a := low + 32 * d;
    var w := 0x23 + 0x80 * a;
    assert w / 0x80 == a && a / 32 == d && d / 8 == e && e / 32 == f && f / 32 == high;
    StoreQuotients(w, a, d, e, f, high);
  }

  lemma StoreQuotients(w: nat, a: nat, d: nat, e: nat, f: nat, g: nat)
    requires w / 0x80 == a && a / 32 == d && d / 8 == e && e / 32 == f && f / 32 == g
    ensures w / 0x1000 == d && w / 0x8000 == e && w / 0x10_0000 == f && w / 0x200_0000 == g
  {
  }

  lemma JumpFieldsBack(rd: nat, b12: nat, b11: nat, b1: nat, b20: nat)
    requires rd < 32 && b12 < 256 && b11 < 2 && b1 < 1024 && b20 < 2
    ensures var w := 0x6f + 0x80 * (rd + 32 * (b12 + 256 * (b11 + 2 * (b1 + 1024 * b20))));
            Opcode(w) == 0x6f && Rd(w) == rd && ImmJ(w) == 2 * b1 + 2048 * b11 + 4096 * b12 - 0x10_0000 * b20
  {
    var g := b1 + 1024 * b20;
    var f := b11 + 2 * g;
    var d := b12 + 256 * f;
    var a := rd + 32 * d;
    var w := 0x6f + 0x80 * a;
    assert w / 0x80 == a && a / 32 == d && d / 256 == f && f / 2 == g && g / 1024 == b20;
    JumpQuotients(w, a, d, f, g, b20);
  }

  lemma JumpQuotients(w: nat, a: nat, d: nat, f: nat, g: nat, h: nat)
    requires w / 0x80 == a && a / 32 == d && d / 256 == f && f / 2 == g && g / 1024 == h
    ensures w / 0x1000 == d && w / 0x10_0000 == f && w / 0x20_0000 == g && w / 0x8000_0000 == h
  {
  }
}
