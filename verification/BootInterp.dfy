/** The part of the interpreter that runs the boot ROM of a snapshot, and the instruction encoders. */
module BootInterp {
  import opened Basics
  import Powers

  const ROM_BASE_ADDR: nat := 0x10000
  const ROM_WORDS: nat := 1024

  /**
   * The CSRs the ROM restores or depends on; misaC tells whether there are compressed instructions, and
   * addrLen is physical_addr_len. The machine CSRs that nothing here looks at are kept by number.
   */
  datatype Csrs = Csrs(fs: nat, fflags: nat, frm: nat, debugMode: bool, misaC: bool, addrLen: nat, mhartid: nat,
                       dcsr: nat, dpc: nat, dscratch: nat, mscratch: nat, mepc: nat, mcause: nat, mtval: nat,
                       sscratch: nat, sepc: nat, scause: nat, stval: nat, satp: nat, machine: map<nat, nat>)

  /** A hart, and the stores it made to devices. */
  datatype Cpu = Cpu(pc: nat, regs: seq<nat>, fpRegs: seq<nat>, priv: nat, csrs: Csrs, io: seq<(nat, nat)>)

  // ---- CSRs --------------------------------------------------------------------------------

  /** Sign extension of the low 49 bits. */
  function CanonicalS49(val: nat): nat {
    var low := val % 0x2_0000_0000_0000;
    if low >= 0x1_0000_0000_0000 then low + DWORD - 0x2_0000_0000_0000 else low
  }

  /** Addresses of instructions are even, or multiples of four without compressed instructions. */
  function InsnAligned(val: nat, misaC: bool): nat {
    val - val % (if misaC then 2 else 4)
  }

  /** The top bit and the lowest few. */
  function CauseBits(val: nat, low: nat): nat
    requires low > 0
  {
    val / 0x8000_0000_0000_0000 * 0x8000_0000_0000_0000 + val % low
  }

  function SatpBits(val: nat): nat {
    val / 0x1000_0000_0000_0000 * 0x1000_0000_0000_0000 + val % 0x1000_0000_0000
  }

  predicate SatpMode(val: nat) {
    var mode := val / 0x1000_0000_0000_0000 % 16;
    mode == 0 || mode == 8 || mode == 9
  }

  /**
   * mstatus and, by number, the CSRs kept in the map: delegation, enables, vectors, events and memory
   * protection; and of misa and the counters, which ignore writes or run on, what was last written.
   */
  predicate MachineCsr(csr: nat) {
    || csr in {0x105, 0x106, 0x300, 0x301, 0x302, 0x303, 0x304, 0x305, 0x306, 0x320, 0x344, 0x3a0, 0x3a2, 0x7a0, 0xb00}
    || 0x323 <= csr <= 0x33f || 0x3b0 <= csr <= 0x3bf || 0xb02 <= csr <= 0xb1f
  }

  function Held(m: map<nat, nat>, csr: nat): nat {
    if csr in m then m[csr] else 0
  }

  /** `held & ~mask | val & mask` */
  function Masked(held: nat, val: nat, mask: nat): nat
    decreases held + val
  {
    if held == 0 && val == 0 then 0
    else (if mask % 2 == 1 then val % 2 else held % 2) + 2 * Masked(held / 2, val / 2, mask / 2)
  }

  /** Vectored trap bases are aligned: `val & 1 ? val & ~255 + 1 : val`, and bit 1 is never set. */
  function TrapVector(val: nat, mask: nat): nat {
    Masked(0, if val % 2 == 1 then val - val % 256 + 1 else val, mask)
  }

  /** Each byte of a pmpcfg register keeps its value if it is locked, and loses the reserved bits. */
  function PmpCfg(held: nat, val: nat): nat
    decreases held + val
  {
    if held == 0 && val == 0 then 0
    else
      var cfg := if held / 128 % 2 == 0 then val % 256 else held % 256;
      cfg - cfg / 32 % 4 * 32 + 256 * PmpCfg(held / 256, val / 256)
  }

  /** What such a CSR holds after val was written over held. */
  function Legal(addrLen: nat, csr: nat, held: nat, val: nat): nat {
    if csr == 0x105 then TrapVector(val, DWORD - 3)
    else if csr == 0x106 || csr == 0x306 then val % WORD
    else if csr == 0x320 then (val - val / 2 % 2 * 2) % WORD
    else if csr == 0x300 then Masked(held, val, 0x7e19aa)
    else if csr == 0x302 then Masked(held, val, 0xb109)
    else if csr == 0x303 || csr == 0x344 then Masked(held, val, 0x222)
    else if csr == 0x304 then Masked(held, val, 0x40aaa)
    else if csr == 0x305 then TrapVector(val, (Powers.Pow2(addrLen) + DWORD - 3) % DWORD)
    else if csr == 0x7a0 then 0
    else if csr == 0x3a0 then PmpCfg(held, val)
    else if 0x3b0 <= csr < 0x3b8 then Masked(0, val, 0x3f_ffff_ffff)
    else if 0x323 <= csr <= 0x33f then Masked(0, val, 0xffff_ff07)
    else if csr == 0x301 || csr == 0xb00 || 0xb02 <= csr <= 0xb1f then val
    else held
  }

  function MachineWrite(x: Csrs, csr: nat, val: nat): Csrs {
    x.(machine := x.machine[csr := Legal(x.addrLen, csr, Held(x.machine, csr), val)])
  }

  /** csr_read followed by csr_write, in M-mode; None is an illegal instruction. */
  function CsrsWrite(x: Csrs, csr: nat, val: nat): Option<Csrs> {
    if csr == 0x001 then (if x.fs == 0 then None else Some(x.(fs := 3, fflags := val % 32)))
    else if csr == 0x002 then (if x.fs == 0 then None else Some(x.(fs := 3, frm := val % 8)))
    else if csr == 0x003 then (if x.fs == 0 then None else Some(x.(fs := 3, fflags := val % 32, frm := val / 32 % 8)))
    else if csr == 0x140 then Some(x.(sscratch := val))
    else if csr == 0x141 then Some(x.(sepc := CanonicalS49(InsnAligned(val, x.misaC))))
    else if csr == 0x142 then Some(x.(scause := CauseBits(val, 32)))
    else if csr == 0x143 then Some(x.(stval := CanonicalS49(val)))
    else if csr == 0x180 then Some(if SatpMode(val) then x.(satp := SatpBits(val)) else x)
    else if csr == 0x300 then Some(MachineWrite(x, csr, val).(fs := val / 0x2000 % 4))
    else if csr == 0x340 then Some(x.(mscratch := val))
    else if csr == 0x341 then Some(x.(mepc := CanonicalS49(InsnAligned(val, x.misaC))))
    else if csr == 0x342 then Some(x.(mcause := CauseBits(val, 256)))
    else if csr == 0x343 then Some(x.(mtval := CanonicalS49(val)))
    else if csr == 0x7b0 then (if x.debugMode then Some(x.(dcsr := DcsrBits(x.dcsr, val))) else None)
    else if csr == 0x7b1 then (if x.debugMode then Some(x.(dpc := InsnAligned(val, x.misaC))) else None)
    else if csr == 0x7b2 then (if x.debugMode then Some(x.(dscratch := val)) else None)
    else if MachineCsr(csr) then Some(MachineWrite(x, csr, val))
    else None
  }

  function CsrWrite(c: Cpu, csr: nat, val: nat): Option<Cpu> {
    var x := CsrsWrite(c.csrs, csr, val);
    if c.priv == 3 && x.Some? then Some(c.(csrs := x.value)) else None
  }

  /** Bits 10, 9, 1 and 0 are taken from the new value. */
  function DcsrBits(dcsr: nat, val: nat): nat {
    dcsr / 2048 * 2048 + val / 512 % 4 * 512 + dcsr / 4 % 128 * 4 + val % 4
  }

  // ---- instructions ------------------------------------------------------------------------

  function Opcode(w: nat): nat { w % 128 }

  function Rd(w: nat): nat { w / 0x80 % 32 }

  function Funct3(w: nat): nat { w / 0x1000 % 8 }

  function Rs1(w: nat): nat { w / 0x8000 % 32 }

  function Rs2(w: nat): nat { w / 0x10_0000 % 32 }

  /** `(int32_t)insn >> 20` */
  function ImmI(w: nat): int {
    var imm := w / 0x10_0000 % 4096;
    if imm >= 2048 then imm - 4096 else imm
  }

  /** `(int32_t)(insn & 0xfffff000)` */
  function ImmU(w: nat): int {
    var imm := w / 0x1000 % 0x10_0000 * 0x1000;
    if imm >= 0x8000_0000 then imm - WORD else imm
  }

  function ImmB(w: nat): int {
    var imm := w / 0x80 % 2 * 2048 + w / 0x100 % 16 * 2 + w / 0x200_0000 % 64 * 32;
    if w / 0x8000_0000 % 2 == 1 then imm - 4096 else imm
  }

  function ImmJ(w: nat): int {
    var imm := w / 0x20_0000 % 1024 * 2 + w / 0x10_0000 % 2 * 2048 + w / 0x1000 % 256 * 4096;
    if w / 0x8000_0000 % 2 == 1 then imm - 0x10_0000 else imm
  }

  function ImmS(w: nat): int {
    var imm := w / 0x80 % 32 + w / 0x200_0000 % 128 * 32;
    if imm >= 2048 then imm - 4096 else imm
  }

  function Reg(c: Cpu, r: nat): nat {
    if 0 < r < |c.regs| then c.regs[r] else 0
  }

  function WithReg(c: Cpu, r: nat, val: nat): Cpu {
    if 0 < r < |c.regs| then c.(regs := c.regs[r := val]) else c
  }

  /** A write to a floating-point register marks the unit as dirty. */
  function WithFpReg(c: Cpu, r: nat, val: nat): Cpu {
    if r < |c.fpRegs| then c.(fpRegs := c.fpRegs[r := val], csrs := c.csrs.(fs := 3)) else c
  }

  function Next(c: Cpu): Cpu {
    c.(pc := c.pc + 4)
  }

  /** A doubleword of the ROM. Addresses are not translated while satp is 0. */
  function Load(rom: seq<nat>, c: Cpu, addr: int): Option<nat> {
    var i := (addr - ROM_BASE_ADDR) / 4;
    if c.csrs.satp == 0 && addr % 8 == 0 && 0 <= i && i + 1 < |rom| then Some(rom[i] + rom[i + 1] * WORD) else None
  }

  function Wrap64(x: int): nat {
    x % DWORD
  }

  /** One instruction; None where it traps or is not among those the ROM uses. */
  function Execute(rom: seq<nat>, c: Cpu, w: nat): Option<Cpu> {
    if Opcode(w) == 0x17 then Some(Next(WithReg(c, Rd(w), Wrap64(c.pc + ImmU(w)))))
    else if Opcode(w) == 0x13 && Funct3(w) == 0 then Some(Next(WithReg(c, Rd(w), Wrap64(Reg(c, Rs1(w)) + ImmI(w)))))
    else if Opcode(w) == 0x03 && Funct3(w) == 3 then
      var v := Load(rom, c, Wrap64(Reg(c, Rs1(w)) + ImmI(w)));
      if v.Some? then Some(Next(WithReg(c, Rd(w), v.value))) else None
    else if Opcode(w) == 0x07 && Funct3(w) == 3 then
      var v := Load(rom, c, Wrap64(Reg(c, Rs1(w)) + ImmI(w)));
      if v.Some? && c.csrs.fs != 0 then Some(Next(WithFpReg(c, Rd(w), v.value))) else None
    else if Opcode(w) == 0x23 && Funct3(w) == 3 then
      var addr := Wrap64(Reg(c, Rs1(w)) + ImmS(w));
      if c.csrs.satp == 0 && addr % 8 == 0 && !(ROM_BASE_ADDR <= addr < ROM_BASE_ADDR + 4 * |rom|)
      then Some(Next(c.(io := c.io + [(addr, Reg(c, Rs2(w)))]))) else None
    else if Opcode(w) == 0x63 && Funct3(w) == 0 then
      (if Reg(c, Rs1(w)) == Reg(c, Rs2(w)) then Some(c.(pc := Wrap64(c.pc + ImmB(w)))) else Some(Next(c)))
    else if Opcode(w) == 0x6f then Some(WithReg(c, Rd(w), Wrap64(c.pc + 4)).(pc := Wrap64(c.pc + ImmJ(w))))
    else if Opcode(w) == 0x73 then System(c, w)
    else None
  }

  /** handle_dret */
  function Returned(c: Cpu): Cpu {
    c.(pc := c.csrs.dpc, priv := c.csrs.dcsr % 4, csrs := c.csrs.(debugMode := false))
  }

  function System(c: Cpu, w: nat): Option<Cpu> {
    var csr := w / 0x10_0000 % 4096;
    if Funct3(w) == 1 && Rd(w) == 0 then
      var c' := CsrWrite(c, csr, Reg(c, Rs1(w)));
      if c'.Some? then Some(Next(c'.value)) else None
    else if Funct3(w) == 2 && Rs1(w) == 0 && csr == 0x7b2 then
      (if c.csrs.debugMode && c.priv == 3 then Some(Next(WithReg(c, Rd(w), c.csrs.dscratch))) else None)
    else if Funct3(w) == 2 && Rs1(w) == 0 && csr == 0xf14 then
      (if c.priv == 3 then Some(Next(WithReg(c, Rd(w), c.csrs.mhartid))) else None)
    else if Funct3(w) == 0 && csr == 0x105 && Rd(w) == 0 && Rs1(w) == 0 then Some(Next(c))
    else if Funct3(w) == 0 && csr == 0x7b2 && Rd(w) == 0 && Rs1(w) == 0 then
      (if c.csrs.debugMode && c.priv == 3 then Some(Returned(c)) else None)
    else None
  }

  function Step(rom: seq<nat>, c: Cpu): Option<Cpu> {
    var i := (c.pc - ROM_BASE_ADDR) / 4;
    if c.pc % 4 == 0 && 0 <= i < |rom| then Execute(rom, c, rom[i]) else None
  }

  function Run(rom: seq<nat>, c: Cpu, n: nat): Option<Cpu>
    decreases n
  {
    if n == 0 then Some(c)
    else
      var c' := Step(rom, c);
      if c'.Some? then Run(rom, c'.value, n - 1) else None
  }

  lemma {:induction false} RunOn(rom: seq<nat>, c: Cpu, m: nat, n: nat)
    requires Run(rom, c, m).Some?
    ensures Run(rom, c, m + n) == Run(rom, Run(rom, c, m).value, n)
    decreases m
  {
    hide Step;
    if m > 0 {
      RunOn(rom, Step(rom, c).value, m - 1, n);
    }
  }

  // ---- encoders ----------------------------------------------------------------------------

  type RegNo = r: nat | r < 32

  function CreateCsrrw(rs: RegNo, csrn: nat): nat {
    0x1073 + csrn % 4096 * 0x10_0000 + rs * 0x8000
  }

  function CreateCsrrs(rd: RegNo, csrn: nat): nat {
    0x2073 + csrn % 4096 * 0x10_0000 + rd * 0x80
  }

  function CreateAuipc(rd: RegNo, addr: nat): nat {
    var a := if addr / 0x800 % 2 == 1 then (addr + 0x800) % WORD else addr;
    0x17 + rd * 0x80 + a / 0x1000 * 0x1000
  }

  function CreateAddi(rd: RegNo, addr: nat): nat {
    0x13 + rd * 0x80 + rd * 0x8000 + addr % 4096 * 0x10_0000
  }

  function CreateSeti(rd: RegNo, data: nat): nat {
    0x13 + rd * 0x80 + data % 4096 * 0x10_0000
  }

  function CreateLd(rd: RegNo, rs1: RegNo): nat {
    3 + rd * 0x80 + 3 * 0x1000 + rs1 * 0x8000
  }

  function CreateSd(rs1: RegNo, rs2: RegNo): nat {
    0x23 + rs2 * 0x10_0000 + 3 * 0x1000 + rs1 * 0x8000
  }

  function CreateFld(rd: RegNo, rs1: RegNo): nat {
    7 + rd * 0x80 + 3 * 0x1000 + rs1 * 0x8000
  }

  // ---- what the encoded instructions do --------------------------------------------------------

  function Signed12(x: nat): int {
    var low := x % 4096;
    if low >= 2048 then low - 4096 else low
  }

  /** Rounding to the nearest multiple of 4096 is what makes up for the sign of the lower part. */
  lemma UpperPart(off: nat)
    requires off < 0x7fff_f000
    ensures var a := if off / 0x800 % 2 == 1 then (off + 0x800) % WORD else off;
            a / 0x1000 * 0x1000 == off - Signed12(off) && a / 0x1000 < 0x8_0000
  {
    var q, low := off / 0x1000, off % 0x1000;
    assert off == q * 0x1000 + low;
    assert off / 0x800 % 2 == 1 <==> low >= 0x800;
  }

  lemma FieldsOfAuipc(rd: RegNo, off: nat)
    requires off < 0x7fff_f000
    ensures var w := CreateAuipc(rd, off); Opcode(w) == 0x17 && Rd(w) == rd && ImmU(w) == off - Signed12(off)
  {
    UpperPart(off);
    hide Signed12;
    var a := if off / 0x800 % 2 == 1 then (off + 0x800) % WORD else off;
    UpperFields(rd, a / 0x1000);
  }

  lemma UpperFields(rd: RegNo, q: nat)
    requires q < 0x8_0000
    ensures var w := 0x17 + rd * 0x80 + q * 0x1000; Opcode(w) == 0x17 && Rd(w) == rd && ImmU(w) == q * 0x1000
  {
    var d := rd + 32 * q;
    var w := 0x17 + 0x80 * d;
    assert w / 0x80 == d && d / 32 == q;
    assert w / 0x1000 == q;
  }

  /** A word made of its fields. */
  function WordOf(opcode: nat, rd: nat, funct3: nat, rs1: nat, imm: nat): nat {
    opcode + 0x80 * (rd + 32 * (funct3 + 8 * (rs1 + 32 * imm)))
  }

  /** The fields can be read back. */
  lemma WordFields(opcode: nat, rd: nat, funct3: nat, rs1: nat, imm: nat)
    requires opcode < 128 && rd < 32 && funct3 < 8 && rs1 < 32 && imm < 4096
    ensures var w := WordOf(opcode, rd, funct3, rs1, imm);
            && Opcode(w) == opcode && Rd(w) == rd && Funct3(w) == funct3 && Rs1(w) == rs1
            && w / 0x10_0000 == imm && ImmI(w) == Signed12(imm)
  {
    var a := rs1 + 32 * imm;
    var b := funct3 + 8 * a;
    var d := rd + 32 * b;
    var w := opcode + 0x80 * d;
    assert w / 0x80 == d && d / 32 == b && b / 8 == a && a / 32 == imm;
    Quotients(w, d, b, a, imm);
  }

  lemma Quotients(w: nat, d: nat, b: nat, a: nat, imm: nat)
    requires w / 0x80 == d && d / 32 == b && b / 8 == a && a / 32 == imm
    ensures w / 0x1000 == b && w / 0x8000 == a && w / 0x10_0000 == imm
  {
  }

  lemma FieldsOfAddi(rd: RegNo, off: nat)
    ensures var w := CreateAddi(rd, off);
            Opcode(w) == 0x13 && Funct3(w) == 0 && Rd(w) == rd && Rs1(w) == rd && ImmI(w) == Signed12(off)
  {
    hide Opcode, Funct3, Rd, Rs1, ImmI;
    WordFields(0x13, rd, 0, rd, off % 4096);
    assert CreateAddi(rd, off) == WordOf(0x13, rd, 0, rd, off % 4096);
  }

  lemma FieldsOfSeti(rd: RegNo, data: nat)
    ensures var w := CreateSeti(rd, data);
            Opcode(w) == 0x13 && Funct3(w) == 0 && Rd(w) == rd && Rs1(w) == 0 && ImmI(w) == Signed12(data)
  {
    hide Opcode, Funct3, Rd, Rs1, ImmI;
    WordFields(0x13, rd, 0, 0, data % 4096);
    assert CreateSeti(rd, data) == WordOf(0x13, rd, 0, 0, data % 4096);
  }

  lemma FieldsOfLd(rd: RegNo, rs1: RegNo)
    ensures var w := CreateLd(rd, rs1);
            Opcode(w) == 0x03 && Funct3(w) == 3 && Rd(w) == rd && Rs1(w) == rs1 && ImmI(w) == 0
  {
    hide Opcode, Funct3, Rd, Rs1, ImmI;
    WordFields(0x03, rd, 3, rs1, 0);
    assert CreateLd(rd, rs1) == WordOf(0x03, rd, 3, rs1, 0);
  }

  lemma FieldsOfFld(rd: RegNo, rs1: RegNo)
    ensures var w := CreateFld(rd, rs1);
            Opcode(w) == 0x07 && Funct3(w) == 3 && Rd(w) == rd && Rs1(w) == rs1 && ImmI(w) == 0
  {
    hide Opcode, Funct3, Rd, Rs1, ImmI;
    WordFields(0x07, rd, 3, rs1, 0);
    assert CreateFld(rd, rs1) == WordOf(0x07, rd, 3, rs1, 0);
  }

  lemma FieldsOfSd(rs1: RegNo, rs2: RegNo)
    ensures var w := CreateSd(rs1, rs2);
            Opcode(w) == 0x23 && Funct3(w) == 3 && Rs1(w) == rs1 && Rs2(w) == rs2 && ImmS(w) == 0
  {
    hide Opcode, Funct3, Rs1, ImmI;
    WordFields(0x23, 0, 3, rs1, rs2);
    var w := CreateSd(rs1, rs2);
    assert w == WordOf(0x23, 0, 3, rs1, rs2);
    assert w / 0x200_0000 == 0 && Rd(w) == 0;
  }

  lemma FieldsOfCsrrw(rs: RegNo, csrn: nat)
    requires csrn < 4096
    ensures var w := CreateCsrrw(rs, csrn);
            Opcode(w) == 0x73 && Funct3(w) == 1 && Rd(w) == 0 && Rs1(w) == rs && w / 0x10_0000 % 4096 == csrn
  {
    hide Opcode, Funct3, Rd, Rs1, ImmI;
    WordFields(0x73, 0, 1, rs, csrn);
    assert CreateCsrrw(rs, csrn) == WordOf(0x73, 0, 1, rs, csrn);
  }

  lemma FieldsOfCsrrs(rd: RegNo, csrn: nat)
    requires csrn < 4096
    ensures var w := CreateCsrrs(rd, csrn);
            Opcode(w) == 0x73 && Funct3(w) == 2 && Rd(w) == rd && Rs1(w) == 0 && w / 0x10_0000 % 4096 == csrn
  {
    hide Opcode, Funct3, Rd, Rs1, ImmI;
    WordFields(0x73, rd, 2, 0, csrn);
    assert CreateCsrrs(rd, csrn) == WordOf(0x73, rd, 2, 0, csrn);
  }
}
