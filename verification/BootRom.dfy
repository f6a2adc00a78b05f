/** The boot ROM as a list of recovery steps, and what running it does. */
module BootRom {
  import opened Basics
  import opened BootInterp

  /** What the create_..._recovery functions are made of: a register loaded from the pool, or one instruction. */
  datatype Item =
    | IntReg(rn: RegNo, val: nat)
    | SetX1(val: nat)
    | CsrX1(csrn: nat)
    | FpReg(fn: RegNo, lo: nat, hi: nat)
    | StoreX2
    | RestoreX1
    | HangNonzeroHart

  const DATA_START: nat := 704

  /** The three instructions that load a doubleword of the data pool. */
  function LoadCode(rn: RegNo, c: nat, d: nat): seq<nat>
    requires c <= d
  {
    [CreateAuipc(rn, 4 * (d - c)), CreateAddi(rn, 4 * (d - c)), CreateLd(rn, rn)]
  }

  function CodeLen(it: Item): nat {
    match it
    case IntReg(_, _) => 3
    case SetX1(_) => 1
    case CsrX1(_) => 1
    case FpReg(_, _, _) => 3
    case StoreX2 => 1
    case RestoreX1 => 1
    case HangNonzeroHart => 4
  }

  function DataLen(it: Item): nat {
    match it
    case IntReg(_, _) => 2
    case FpReg(_, _, _) => 2
    case _ => 0
  }

  /** The code of an item at code word c when the data pool has reached word d. */
  function CodeOf(it: Item, c: nat, d: nat): (r: seq<nat>)
    requires c + 3 <= d
    ensures |r| == CodeLen(it)
  {
    match it
    case IntReg(rn, _) => LoadCode(rn, c, d)
    case SetX1(val) => [CreateSeti(1, val)]
    case CsrX1(csrn) => [CreateCsrrw(1, csrn)]
    case FpReg(fn, _, _) => [CreateAuipc(1, 4 * (d - c)), CreateAddi(1, 4 * (d - c)), CreateFld(fn, 1)]
    case StoreX2 => [CreateSd(1, 2)]
    case RestoreX1 => [CreateCsrrs(1, 0x7b2)]
    case HangNonzeroHart => [0xf1402573, 0x00050663, 0x10500073, 0xffdff06f]
  }

  function Halves(val: nat): seq<nat> {
    [val % WORD, val / WORD]
  }

  function DataOf(it: Item): (r: seq<nat>)
    ensures |r| == DataLen(it)
  {
    match it
    case IntReg(_, val) => Halves(val)
    case FpReg(_, lo, hi) => [lo, hi]
    case _ => []
  }

  function CodeEnd(items: seq<Item>): nat {
    if |items| == 0 then 0 else CodeEnd(items[..|items| - 1]) + CodeLen(items[|items| - 1])
  }

  function DataEnd(items: seq<Item>): nat {
    if |items| == 0 then DATA_START else DataEnd(items[..|items| - 1]) + DataLen(items[|items| - 1])
  }

  /** The ROM holds this item at these positions; code and data stay apart and inside. */
  predicate ItemAt(rom: seq<nat>, it: Item, c: nat, d: nat) {
    && c + CodeLen(it) <= DATA_START && DATA_START <= d && d + DataLen(it) <= |rom| && |rom| == ROM_WORDS && d % 2 == 0
    && c + 3 <= d && rom[c..c + CodeLen(it)] == CodeOf(it, c, d)
    && rom[d..d + DataLen(it)] == DataOf(it)
  }

  /** The ROM holds these items, one after the other. */
  predicate Placed(rom: seq<nat>, items: seq<Item>) {
    |items| > 0 ==>
      var front := items[..|items| - 1];
      Placed(rom, front) && ItemAt(rom, items[|items| - 1], CodeEnd(front), DataEnd(front))
  }

  /** Words beyond the items do not matter to them. */
  lemma {:induction false} PlacedKept(rom: seq<nat>, rom': seq<nat>, items: seq<Item>)
    requires Placed(rom, items) && |rom'| == |rom|
    requires forall i :: 0 <= i < CodeEnd(items) && i < |rom| ==> rom'[i] == rom[i]
    requires forall i :: DATA_START <= i < DataEnd(items) && i < |rom| ==> rom'[i] == rom[i]
    ensures Placed(rom', items)
  {
    if |items| > 0 {
      var front, it := items[..|items| - 1], items[|items| - 1];
      PlacedKept(rom, rom', front);
      ItemKept(rom, rom', it, CodeEnd(front), DataEnd(front));
    }
  }

  lemma ItemKept(rom: seq<nat>, rom': seq<nat>, it: Item, c: nat, d: nat)
    requires ItemAt(rom, it, c, d) && |rom'| == |rom|
    requires forall i :: c <= i < c + CodeLen(it) ==> rom'[i] == rom[i]
    requires forall i :: d <= i < d + DataLen(it) ==> rom'[i] == rom[i]
    ensures ItemAt(rom', it, c, d)
  {
    hide CodeOf, DataOf, CodeLen, DataLen;
    assert rom'[c..c + CodeLen(it)] == rom[c..c + CodeLen(it)];
    assert rom'[d..d + DataLen(it)] == rom[d..d + DataLen(it)];
  }

  lemma Ends(items: seq<Item>, it: Item)
    ensures CodeEnd(items + [it]) == CodeEnd(items) + CodeLen(it)
    ensures DataEnd(items + [it]) == DataEnd(items) + DataLen(it)
  {
    assert (items + [it])[..|items|] == items;
  }

  lemma PlacedSnoc(rom: seq<nat>, items: seq<Item>, it: Item)
    ensures Placed(rom, items + [it]) <==> Placed(rom, items) && ItemAt(rom, it, CodeEnd(items), DataEnd(items))
  {
    assert (items + [it])[..|items|] == items;
    hide ItemAt, CodeEnd, DataEnd;
  }

  // ---- effects ------------------------------------------------------------------------------------

  /** An aligned address outside the ROM. */
  predicate DeviceAddress(a: nat) {
    a < DWORD && a % 8 == 0 && !(ROM_BASE_ADDR <= a < ROM_BASE_ADDR + 4 * ROM_WORDS)
  }

  /** What an item does besides moving on, when its data is at word d; None where it would trap. */
  function Effect(it: Item, c: Cpu, d: nat): Option<Cpu> {
    if DataLen(it) > 0 && c.csrs.satp != 0 then None
    else
    match it
    case IntReg(rn, val) => Some(WithReg(c, rn, val))
    case SetX1(val) => Some(WithReg(c, 1, Wrap64(Signed12(val))))
    case CsrX1(csrn) => CsrWrite(c, csrn, Reg(c, 1))
    case FpReg(fn, lo, hi) =>
      if c.csrs.fs == 0 then None else Some(WithFpReg(WithReg(c, 1, ROM_BASE_ADDR + 4 * d), fn, lo + hi * WORD))
    case StoreX2 => if c.csrs.satp == 0 && DeviceAddress(Reg(c, 1)) then Some(c.(io := c.io + [(Reg(c, 1), Reg(c, 2))])) else None
    case RestoreX1 => if c.csrs.debugMode && c.priv == 3 then Some(WithReg(c, 1, c.csrs.dscratch)) else None
    case HangNonzeroHart => if c.priv == 3 && c.csrs.mhartid == 0 then Some(WithReg(c, 10, 0)) else None
  }

  predicate ItemOk(it: Item) {
    match it
    case CsrX1(csrn) => csrn < 4096
    case IntReg(rn, val) => rn > 0 && val < DWORD
    case _ => true
  }

  function At(c: Cpu, i: nat): Cpu {
    c.(pc := ROM_BASE_ADDR + 4 * i)
  }

  predicate Started(c: Cpu, i: nat) {
    c.pc == ROM_BASE_ADDR + 4 * i && |c.regs| == 32 && i < ROM_WORDS
  }

  // ---- single instructions --------------------------------------------------------------------------

  lemma StepAt(rom: seq<nat>, c: Cpu, i: nat)
    requires Started(c, i) && |rom| == ROM_WORDS
    ensures Step(rom, c) == Execute(rom, c, rom[i])
  {
    hide Execute;
  }

  lemma StepAuipc(rom: seq<nat>, c: Cpu, i: nat, rd: RegNo, off: nat)
    requires Started(c, i) && |rom| == ROM_WORDS && 0 < rd && off < 4096 && rom[i] == CreateAuipc(rd, off)
    ensures Step(rom, c) == Some(At(WithReg(c, rd, c.pc + off - Signed12(off)), i + 1))
  {
    StepAt(rom, c, i);
    FieldsOfAuipc(rd, off);
    hide Opcode, Funct3, Rd, ImmU, Load, System, CreateAuipc;
  }

  lemma StepAddi(rom: seq<nat>, c: Cpu, i: nat, rd: RegNo, off: nat)
    requires Started(c, i) && |rom| == ROM_WORDS && 0 < rd && rom[i] == CreateAddi(rd, off)
    requires 0 <= Reg(c, rd) + Signed12(off) < DWORD
    ensures Step(rom, c) == Some(At(WithReg(c, rd, Reg(c, rd) + Signed12(off)), i + 1))
  {
    StepAt(rom, c, i);
    FieldsOfAddi(rd, off);
    hide Opcode, Funct3, Rd, Rs1, ImmI, ImmU, Load, System, CreateAddi, Signed12;
  }

  lemma StepSeti(rom: seq<nat>, c: Cpu, i: nat, data: nat)
    requires Started(c, i) && |rom| == ROM_WORDS && rom[i] == CreateSeti(1, data)
    ensures Step(rom, c) == Some(At(WithReg(c, 1, Wrap64(Signed12(data))), i + 1))
  {
    StepAt(rom, c, i);
    FieldsOfSeti(1, data);
    hide Opcode, Funct3, Rd, Rs1, ImmI, ImmU, Load, System, CreateSeti, Signed12;
  }

  lemma ExecuteLd(rom: seq<nat>, c: Cpu, w: nat, val: nat)
    requires Opcode(w) == 0x03 && Funct3(w) == 3 && Load(rom, c, Wrap64(Reg(c, Rs1(w)) + ImmI(w))) == Some(val)
    ensures Execute(rom, c, w) == Some(Next(WithReg(c, Rd(w), val)))
  {
    hide Opcode, Funct3, Rd, Rs1, Rs2, ImmI, ImmU, ImmS, ImmB, Load, System, WithReg, Reg, Wrap64;
  }

  lemma StepLd(rom: seq<nat>, c: Cpu, i: nat, rd: RegNo, val: nat)
    requires Started(c, i) && |rom| == ROM_WORDS && 0 < rd && rom[i] == CreateLd(rd, rd)
    requires Reg(c, rd) < DWORD && Load(rom, c, Reg(c, rd)) == Some(val)
    ensures Step(rom, c) == Some(At(WithReg(c, rd, val), i + 1))
  {
    hide Opcode, Funct3, Rd, Rs1, Rs2, ImmI, Load, CreateLd, Reg, Execute, Step;
    StepAt(rom, c, i);
    FieldsOfLd(rd, rd);
    WrapSmall(Reg(c, rd));
    ExecuteLd(rom, c, rom[i], val);
  }

  lemma ExecuteFld(rom: seq<nat>, c: Cpu, w: nat, val: nat)
    requires Opcode(w) == 0x07 && Funct3(w) == 3 && c.csrs.fs != 0
    requires Load(rom, c, Wrap64(Reg(c, Rs1(w)) + ImmI(w))) == Some(val)
    ensures Execute(rom, c, w) == Some(Next(WithFpReg(c, Rd(w), val)))
  {
    hide Opcode, Funct3, Rd, Rs1, Rs2, ImmI, ImmU, ImmS, ImmB, Load, System, WithReg, Reg, Wrap64;
  }

  lemma StepFld(rom: seq<nat>, c: Cpu, i: nat, fn: RegNo, val: nat)
    requires Started(c, i) && |rom| == ROM_WORDS && rom[i] == CreateFld(fn, 1)
    requires Reg(c, 1) < DWORD && Load(rom, c, Reg(c, 1)) == Some(val) && c.csrs.fs != 0
    ensures Step(rom, c) == Some(At(WithFpReg(c, fn, val), i + 1))
  {
    hide Opcode, Funct3, Rd, Rs1, Rs2, ImmI, Load, CreateFld, Reg, Execute, Step;
    StepAt(rom, c, i);
    FieldsOfFld(fn, 1);
    WrapSmall(Reg(c, 1));
    ExecuteFld(rom, c, rom[i], val);
  }

  lemma WrapSmall(x: nat)
    requires x < DWORD
    ensures Wrap64(x) == x
  {
  }

  lemma StepSd(rom: seq<nat>, c: Cpu, i: nat)
    requires Started(c, i) && |rom| == ROM_WORDS && rom[i] == CreateSd(1, 2) && c.csrs.satp == 0
    requires DeviceAddress(Reg(c, 1))
    ensures Step(rom, c) == Some(At(c.(io := c.io + [(Reg(c, 1), Reg(c, 2))]), i + 1))
  {
    StepAt(rom, c, i);
    FieldsOfSd(1, 2);
    hide Opcode, Funct3, Rd, Rs1, Rs2, ImmI, ImmS, ImmU, Load, System, CreateSd;
  }

  lemma StepCsrrw(rom: seq<nat>, c: Cpu, i: nat, csrn: nat)
    requires Started(c, i) && |rom| == ROM_WORDS && rom[i] == CreateCsrrw(1, csrn) && csrn < 4096
    requires CsrWrite(c, csrn, Reg(c, 1)).Some?
    ensures Step(rom, c) == Some(Next(CsrWrite(c, csrn, Reg(c, 1)).value))
  {
    StepAt(rom, c, i);
    FieldsOfCsrrw(1, csrn);
    hide Opcode, Funct3, Rd, Rs1, ImmI, ImmU, Load, CreateCsrrw, CsrWrite;
  }

  lemma StepSave(rom: seq<nat>, c: Cpu, i: nat)
    requires Started(c, i) && |rom| == ROM_WORDS && rom[i] == CreateCsrrs(1, 0x7b2) && c.csrs.debugMode && c.priv == 3
    ensures Step(rom, c) == Some(At(WithReg(c, 1, c.csrs.dscratch), i + 1))
  {
    StepAt(rom, c, i);
    FieldsOfCsrrs(1, 0x7b2);
    hide Opcode, Funct3, Rd, Rs1, ImmI, ImmU, Load, CreateCsrrs, CsrWrite;
  }

  // ---- items -------------------------------------------------------------------------------------------

  lemma RunOne(rom: seq<nat>, c: Cpu)
    ensures Run(rom, c, 1) == Step(rom, c)
  {
    hide Step;
    if Step(rom, c).Some? {
      assert Run(rom, Step(rom, c).value, 0) == Some(Step(rom, c).value);
    }
  }

  /** After n steps one more. */
  lemma RunThen(rom: seq<nat>, c: Cpu, n: nat, c1: Cpu, c2: Option<Cpu>)
    requires Run(rom, c, n) == Some(c1) && Step(rom, c1) == c2
    ensures Run(rom, c, n + 1) == c2
  {
    hide Step, Run;
    RunOn(rom, c, n, 1);
    RunOne(rom, c1);
  }

  /** auipc and addi form the address of the data. */
  lemma RunAddress(rom: seq<nat>, c: Cpu, i: nat, d: nat, rd: RegNo)
    requires Started(c, i) && |rom| == ROM_WORDS && 0 < rd && i + 1 < d < ROM_WORDS
    requires rom[i] == CreateAuipc(rd, 4 * (d - i)) && rom[i + 1] == CreateAddi(rd, 4 * (d - i))
    ensures Run(rom, c, 2) == Some(At(WithReg(c, rd, ROM_BASE_ADDR + 4 * d), i + 2))
  {
    hide Step, Run, CreateAuipc, CreateAddi;
    var off := 4 * (d - i);
    var c1 := At(WithReg(c, rd, c.pc + off - Signed12(off)), i + 1);
    StepAuipc(rom, c, i, rd, off);
    RunOne(rom, c);
    StepAddi(rom, c1, i + 1, rd, off);
    RunThen(rom, c, 1, c1, Step(rom, c1));
    hide Signed12;
    assert WithReg(c1, rd, Reg(c1, rd) + Signed12(off)).regs == WithReg(c, rd, ROM_BASE_ADDR + 4 * d).regs;
  }

  lemma LoadPool(rom: seq<nat>, c: Cpu, d: nat, val: nat)
    requires |rom| == ROM_WORDS && d + 1 < ROM_WORDS && d % 2 == 0 && c.csrs.satp == 0 && rom[d..d + 2] == Halves(val)
    ensures Load(rom, c, ROM_BASE_ADDR + 4 * d) == Some(val)
  {
    assert rom[d] == rom[d..d + 2][0] && rom[d + 1] == rom[d..d + 2][1];
    assert (ROM_BASE_ADDR + 4 * d - ROM_BASE_ADDR) / 4 == d;
  }

  lemma LoadCodeAt(rom: seq<nat>, i: nat, d: nat, rd: RegNo)
    requires i + 3 <= |rom| && i <= d && rom[i..i + 3] == LoadCode(rd, i, d)
    ensures rom[i] == CreateAuipc(rd, 4 * (d - i)) && rom[i + 1] == CreateAddi(rd, 4 * (d - i))
    ensures rom[i + 2] == CreateLd(rd, rd)
  {
    hide CreateAuipc, CreateAddi, CreateLd;
    assert rom[i] == rom[i..i + 3][0] && rom[i + 1] == rom[i..i + 3][1] && rom[i + 2] == rom[i..i + 3][2];
  }

  /** Writing a register twice. */
  lemma TwoWrites(c: Cpu, i: nat, j: nat, rd: RegNo, a: nat, val: nat)
    requires |c.regs| == 32 && 0 < rd
    ensures At(WithReg(At(WithReg(c, rd, a), i), rd, val), j) == At(WithReg(c, rd, val), j)
    ensures Reg(At(WithReg(c, rd, a), i), rd) == a
  {
    assert c.regs[rd := a][rd := val] == c.regs[rd := val];
  }

  /** The three instructions that load a register from the pool. */
  lemma RunLoad(rom: seq<nat>, c: Cpu, i: nat, d: nat, rd: RegNo, val: nat)
    requires Started(c, i) && |rom| == ROM_WORDS && 0 < rd && i + 2 < d && d + 2 <= ROM_WORDS && d % 2 == 0 && c.csrs.satp == 0
    requires rom[i..i + 3] == LoadCode(rd, i, d) && rom[d..d + 2] == Halves(val)
    ensures Run(rom, c, 3) == Some(At(WithReg(c, rd, val), i + 3))
  {
    hide Step, Run, CreateAuipc, CreateAddi, CreateLd, Load, Halves, LoadCode;
    LoadCodeAt(rom, i, d, rd);
    RunAddress(rom, c, i, d, rd);
    var c2 := At(WithReg(c, rd, ROM_BASE_ADDR + 4 * d), i + 2);
    LoadPool(rom, c2, d, val);
    TwoWrites(c, i + 2, i + 3, rd, ROM_BASE_ADDR + 4 * d, val);
    hide WithReg;
    StepLd(rom, c2, i + 2, rd, val);
    RunThen(rom, c, 2, c2, Step(rom, c2));
  }

  lemma CsrWritePc(c: Cpu, csrn: nat, val: nat, pc: nat)
    ensures CsrWrite(c.(pc := pc), csrn, val) ==
            (if CsrWrite(c, csrn, val).Some? then Some(CsrWrite(c, csrn, val).value.(pc := pc)) else None)
    ensures CsrWrite(c, csrn, val).Some? ==> CsrWrite(c, csrn, val).value.pc == c.pc
    ensures CsrWrite(c, csrn, val).Some? ==> CsrWrite(c, csrn, val).value.regs == c.regs
  {
    hide CsrsWrite;
  }

  /** Moving a value from the first register to a CSR. */
  lemma RunCsrWrite(rom: seq<nat>, c: Cpu, n: nat, c1: Cpu, i: nat, csrn: nat, val: nat)
    requires Run(rom, c, n) == Some(At(c1, i)) && |c1.regs| == 32 && i < ROM_WORDS && |rom| == ROM_WORDS
    requires rom[i] == CreateCsrrw(1, csrn) && csrn < 4096 && c1.regs[1] == val && CsrWrite(c1, csrn, val).Some?
    ensures Run(rom, c, n + 1) == Some(At(CsrWrite(c1, csrn, val).value, i + 1))
  {
    hide Step, Run, CreateCsrrw, CsrWrite;
    CsrWritePc(c1, csrn, val, ROM_BASE_ADDR + 4 * i);
    StepCsrrw(rom, At(c1, i), i, csrn);
    RunThen(rom, c, n, At(c1, i), Step(rom, At(c1, i)));
  }

  lemma RunCsrX1(rom: seq<nat>, c: Cpu, i: nat, d: nat, csrn: nat)
    requires Started(c, i) && ItemAt(rom, CsrX1(csrn), i, d) && ItemOk(CsrX1(csrn)) && Effect(CsrX1(csrn), c, d).Some?
    ensures Run(rom, c, 1) == Some(At(Effect(CsrX1(csrn), c, d).value, i + 1))
  {
    assert rom[i] == rom[i..i + 1][0];
    assert Run(rom, c, 0) == Some(At(c, i));
    hide Step, Run, CsrWrite, CreateCsrrw;
    RunCsrWrite(rom, c, 0, c, i, csrn, Reg(c, 1));
  }

  lemma RunSetX1(rom: seq<nat>, c: Cpu, i: nat, d: nat, val: nat)
    requires Started(c, i) && ItemAt(rom, SetX1(val), i, d)
    ensures Run(rom, c, 1) == Some(At(Effect(SetX1(val), c, d).value, i + 1))
  {
    assert rom[i] == rom[i..i + 1][0];
    hide Step, Run, CreateSeti;
    StepSeti(rom, c, i, val);
    RunOne(rom, c);
  }

  lemma RunFpReg(rom: seq<nat>, c: Cpu, i: nat, d: nat, fn: RegNo, lo: nat, hi: nat)
    requires Started(c, i) && ItemAt(rom, FpReg(fn, lo, hi), i, d) && Effect(FpReg(fn, lo, hi), c, d).Some?
    ensures Run(rom, c, 3) == Some(At(Effect(FpReg(fn, lo, hi), c, d).value, i + 3))
  {
    FpRegAt(rom, i, d, fn, lo, hi);
    var w := WithReg(c, 1, ROM_BASE_ADDR + 4 * d);
    WithRegKeeps(c, 1, ROM_BASE_ADDR + 4 * d);
    TwoWrites(c, i + 2, i + 3, 1, ROM_BASE_ADDR + 4 * d, 0);
    assert Effect(FpReg(fn, lo, hi), c, d) == Some(WithFpReg(w, fn, lo + hi * WORD));
    hide Step, Run, CreateFld, CreateAuipc, CreateAddi, Load, ItemAt, Effect, WithReg, Reg;
    RunAddress(rom, c, i, d, 1);
    FpRegLoad(rom, At(w, i + 2), d, lo, hi);
    StepFld(rom, At(w, i + 2), i + 2, fn, lo + hi * WORD);
    RunThen(rom, c, 2, At(w, i + 2), Step(rom, At(w, i + 2)));
  }

  lemma WithRegKeeps(c: Cpu, r: nat, val: nat)
    ensures |WithReg(c, r, val).regs| == |c.regs| && WithReg(c, r, val) == c.(regs := WithReg(c, r, val).regs)
  {
  }

  lemma FpRegAt(rom: seq<nat>, i: nat, d: nat, fn: RegNo, lo: nat, hi: nat)
    requires ItemAt(rom, FpReg(fn, lo, hi), i, d)
    ensures i + 3 <= DATA_START <= d && d + 2 <= |rom| == ROM_WORDS && d % 2 == 0 && rom[d] == lo && rom[d + 1] == hi
    ensures rom[i] == CreateAuipc(1, 4 * (d - i)) && rom[i + 1] == CreateAddi(1, 4 * (d - i)) && rom[i + 2] == CreateFld(fn, 1)
  {
    hide CreateFld, CreateAuipc, CreateAddi;
    var code, data := rom[i..i + 3], rom[d..d + 2];
    assert rom[i] == code[0] && rom[i + 1] == code[1] && rom[i + 2] == code[2] && rom[d] == data[0] && rom[d + 1] == data[1];
  }

  lemma FpRegLoad(rom: seq<nat>, c: Cpu, d: nat, lo: nat, hi: nat)
    requires |rom| == ROM_WORDS && d + 1 < ROM_WORDS && d % 2 == 0 && c.csrs.satp == 0 && rom[d] == lo && rom[d + 1] == hi
    ensures Load(rom, c, ROM_BASE_ADDR + 4 * d) == Some(lo + hi * WORD)
  {
    assert (ROM_BASE_ADDR + 4 * d - ROM_BASE_ADDR) / 4 == d;
  }

  lemma RunStore(rom: seq<nat>, c: Cpu, i: nat, d: nat)
    requires Started(c, i) && ItemAt(rom, StoreX2, i, d) && Effect(StoreX2, c, d).Some?
    ensures Run(rom, c, 1) == Some(At(Effect(StoreX2, c, d).value, i + 1))
  {
    assert rom[i] == rom[i..i + 1][0];
    hide Step, Run, CreateSd;
    StepSd(rom, c, i);
    RunOne(rom, c);
  }

  lemma RunIntReg(rom: seq<nat>, c: Cpu, i: nat, d: nat, rn: RegNo, val: nat)
    requires Started(c, i) && ItemAt(rom, IntReg(rn, val), i, d) && ItemOk(IntReg(rn, val))
    requires Effect(IntReg(rn, val), c, d).Some?
    ensures Run(rom, c, 3) == Some(At(Effect(IntReg(rn, val), c, d).value, i + 3))
  {
    hide Step, Run, Halves, LoadCode;
    RunLoad(rom, c, i, d, rn, val);
  }

  lemma RunRestore(rom: seq<nat>, c: Cpu, i: nat, d: nat)
    requires Started(c, i) && ItemAt(rom, RestoreX1, i, d) && Effect(RestoreX1, c, d).Some?
    ensures Run(rom, c, 1) == Some(At(Effect(RestoreX1, c, d).value, i + 1))
  {
    assert rom[i] == rom[i..i + 1][0];
    hide Step, Run, CsrWrite, CreateCsrrs;
    StepSave(rom, c, i);
    RunOne(rom, c);
  }

  /** csrr a0, mhartid; beqz a0 over the two instructions other harts loop on. */
  lemma RunHang(rom: seq<nat>, c: Cpu, i: nat, d: nat)
    requires Started(c, i) && ItemAt(rom, HangNonzeroHart, i, d) && Effect(HangNonzeroHart, c, d).Some?
    ensures Run(rom, c, 2) == Some(At(Effect(HangNonzeroHart, c, d).value, i + 4))
  {
    var code := rom[i..i + 4];
    assert rom[i] == code[0] && rom[i + 1] == code[1];
    var w := WithReg(c, 10, 0);
    assert Effect(HangNonzeroHart, c, d) == Some(w);
    hide Step, Run, Effect, ItemAt;
    StepHartid(rom, c, i);
    RunOne(rom, c);
    StepBeqz(rom, At(w, i + 1), i + 1);
    RunThen(rom, c, 1, At(w, i + 1), Step(rom, At(w, i + 1)));
  }

  lemma StepHartid(rom: seq<nat>, c: Cpu, i: nat)
    requires Started(c, i) && |rom| == ROM_WORDS && rom[i] == 0xf1402573 && c.priv == 3
    ensures Step(rom, c) == Some(At(WithReg(c, 10, c.csrs.mhartid), i + 1))
  {
    StepAt(rom, c, i);
    FieldsOfCsrrs(10, 0xf14);
    assert CreateCsrrs(10, 0xf14) == 0xf1402573;
    hide Opcode, Funct3, Rd, Rs1, ImmI, ImmU, Load, CreateCsrrs, CsrWrite;
  }

  lemma StepBeqz(rom: seq<nat>, c: Cpu, i: nat)
    requires Started(c, i) && |rom| == ROM_WORDS && rom[i] == 0x00050663
    ensures Step(rom, c) == Some(At(c, if Reg(c, 10) == 0 then i + 3 else i + 1))
  {
    StepAt(rom, c, i);
    var w := 0x00050663;
    assert Opcode(w) == 0x63 && Funct3(w) == 0 && Rs1(w) == 10 && Rs2(w) == 0 && ImmB(w) == 12;
    hide Opcode, Funct3, Rd, Rs1, Rs2, ImmB, ImmI, ImmU, Load, System;
    WrapSmall(c.pc + 12);
  }

  lemma StepWfi(rom: seq<nat>, c: Cpu, i: nat)
    requires Started(c, i) && |rom| == ROM_WORDS && rom[i] == 0x10500073
    ensures Step(rom, c) == Some(At(c, i + 1))
  {
    StepAt(rom, c, i);
    WordFields(0x73, 0, 0, 0, 0x105);
    assert 0x10500073 == WordOf(0x73, 0, 0, 0, 0x105);
    hide Opcode, Funct3, Rd, Rs1, ImmI, ImmU, Load, CsrWrite, WordOf;
  }

  lemma JumpFields()
    ensures Opcode(0xffdff06f) == 0x6f && Rd(0xffdff06f) == 0 && ImmJ(0xffdff06f) == -4
  {
  }

  lemma StepJump(rom: seq<nat>, c: Cpu, i: nat)
    requires Started(c, i) && |rom| == ROM_WORDS && rom[i] == 0xffdff06f && i > 0
    ensures Step(rom, c) == Some(At(c, i - 1))
  {
    StepAt(rom, c, i);
    JumpFields();
    hide Opcode, Funct3, Rd, Rs1, Rs2, ImmJ, ImmB, ImmI, ImmU, Load, System;
    WrapSmall(c.pc - 4);
  }

  /** The four words that keep other harts out. */
  predicate HangsOthers(rom: seq<nat>) {
    |rom| == ROM_WORDS && rom[..4] == [0xf1402573, 0x00050663, 0x10500073, 0xffdff06f]
  }

  lemma HangStep(rom: seq<nat>, w: Cpu, i: nat)
    requires HangsOthers(rom) && |w.regs| == 32 && Reg(w, 10) != 0 && 1 <= i <= 3
    ensures Step(rom, At(w, i)) == Some(At(w, if i == 2 then 3 else 2))
  {
    assert rom[1] == rom[..4][1] && rom[2] == rom[..4][2] && rom[3] == rom[..4][3];
    hide Step, HangsOthers, Reg;
    SameReg(w, i, 10);
    if i == 1 {
      StepBeqz(rom, At(w, i), i);
    } else if i == 2 {
      StepWfi(rom, At(w, i), i);
    } else {
      StepJump(rom, At(w, i), i);
    }
  }

  lemma HangStart(rom: seq<nat>, c: Cpu)
    requires HangsOthers(rom) && Started(c, 0) && c.priv == 3 && c.csrs.mhartid != 0
    ensures var w := WithReg(c, 10, c.csrs.mhartid);
            Step(rom, c) == Some(At(w, 1)) && |w.regs| == 32 && Reg(w, 10) != 0
  {
    assert rom[0] == rom[..4][0];
    hide Step, HangsOthers;
    StepHartid(rom, c, 0);
  }

  /** The word such a hart is at after n > 0 steps. */
  function HangPlace(n: nat): (i: nat)
    ensures 1 <= i <= 3
  {
    if n <= 1 then 1 else 2 + n % 2
  }

  lemma HangNext(n: nat)
    requires n > 0
    ensures HangPlace(n + 1) == if HangPlace(n) == 2 then 3 else 2
  {
  }

  /** A hart other than 0 never gets beyond them, and changes nothing but a0. */
  lemma {:induction false} OtherHartsHang(rom: seq<nat>, c: Cpu, n: nat)
    requires HangsOthers(rom) && Started(c, 0) && c.priv == 3 && c.csrs.mhartid != 0 && n > 0
    ensures Run(rom, c, n) == Some(At(WithReg(c, 10, c.csrs.mhartid), HangPlace(n)))
    decreases n
  {
    hide *;
    HangStart(rom, c);
    if n == 1 {
      RunOne(rom, c);
      FirstPlace();
    } else {
      OtherHartsHang(rom, c, n - 1);
      HangNext(n - 1);
      var w, i := WithReg(c, 10, c.csrs.mhartid), HangPlace(n - 1);
      HangStep(rom, w, i);
      RunThen(rom, c, n - 1, At(w, i), Step(rom, At(w, i)));
    }
  }

  lemma FirstPlace()
    ensures HangPlace(1) == 1
  {
  }

  lemma SameReg(c: Cpu, i: nat, r: nat)
    ensures Reg(At(c, i), r) == Reg(c, r)
  {
  }

  /** The first item stands at the start of the code. */
  lemma {:induction false} FirstItemAt(rom: seq<nat>, items: seq<Item>)
    requires Placed(rom, items) && |items| > 0
    ensures ItemAt(rom, items[0], 0, DATA_START)
    decreases |items|
  {
    if |items| > 1 {
      hide ItemAt;
      FirstItemAt(rom, items[..|items| - 1]);
    } else {
      hide ItemAt;
      assert items[..0] == [];
    }
  }

  /** Running the code of an item has its effect and ends behind it. */
  lemma RunItem(rom: seq<nat>, c: Cpu, it: Item, i: nat, d: nat) returns (n: nat)
    requires Started(c, i) && ItemAt(rom, it, i, d) && ItemOk(it) && Effect(it, c, d).Some?
    ensures Run(rom, c, n) == Some(At(Effect(it, c, d).value, i + CodeLen(it)))
  {
    hide Run, Effect, ItemAt, ItemOk;
    match it
    case SetX1(val) => RunSetX1(rom, c, i, d, val); n := 1;
    case CsrX1(csrn) => RunCsrX1(rom, c, i, d, csrn); n := 1;
    case IntReg(rn, val) => RunIntReg(rom, c, i, d, rn, val); n := 3;
    case FpReg(fn, lo, hi) => RunFpReg(rom, c, i, d, fn, lo, hi); n := 3;
    case StoreX2 => RunStore(rom, c, i, d); n := 1;
    case RestoreX1 => RunRestore(rom, c, i, d); n := 1;
    case HangNonzeroHart => RunHang(rom, c, i, d); n := 2;
  }

  // ---- all items -----------------------------------------------------------------------------------------

  /** The state after all the items, apart from the program counter. */
  function After(items: seq<Item>, c: Cpu): Option<Cpu> {
    if |items| == 0 then Some(c)
    else
      var front := items[..|items| - 1];
      var c' := After(front, c);
      if c'.None? then None else Effect(items[|items| - 1], c'.value, DataEnd(front))
  }

  lemma AfterSnoc(items: seq<Item>, it: Item, c: Cpu)
    ensures After(items + [it], c) ==
            if After(items, c).None? then None else Effect(it, After(items, c).value, DataEnd(items))
  {
    hide Effect, DataEnd;
    assert (items + [it])[..|items|] == items;
  }

  lemma EffectKeeps(it: Item, c: Cpu, d: nat)
    requires Effect(it, c, d).Some?
    ensures |Effect(it, c, d).value.regs| == |c.regs|
  {
    match it
    case CsrX1(csrn) => CsrWritePc(c, csrn, Reg(c, 1), 0);
    case _ =>
    hide CsrWrite;
  }

  /** Effects do not look at the program counter. */
  lemma EffectPc(it: Item, c: Cpu, d: nat, i: nat)
    ensures Effect(it, At(c, i), d) ==
            (if Effect(it, c, d).Some? then Some(At(Effect(it, c, d).value, i)) else None)
  {
    hide CsrWrite;
    match it
    case CsrX1(csrn) => CsrWritePc(c, csrn, Reg(c, 1), ROM_BASE_ADDR + 4 * i);
    case _ =>
  }

  /** Running a ROM that holds a list of items has all their effects. */
  lemma {:induction false} RunItems(rom: seq<nat>, items: seq<Item>, c: Cpu) returns (n: nat)
    requires Placed(rom, items) && Started(c, 0) && After(items, c).Some? && |rom| == ROM_WORDS
    requires forall i :: 0 <= i < |items| ==> ItemOk(items[i])
    ensures Run(rom, c, n) == Some(At(After(items, c).value, CodeEnd(items)))
    ensures |After(items, c).value.regs| == 32 && CodeEnd(items) <= DATA_START
    decreases |items|
  {
    hide *;
    if |items| == 0 {
      NoItems(rom, items, c);
      n := 0;
    } else {
      LastItem(rom, items, c);
      var front, it := items[..|items| - 1], items[|items| - 1];
      var m := RunItems(rom, front, c);
      var c' := After(front, c).value;
      var i, d := CodeEnd(front), DataEnd(front);
      n := RunNext(rom, c, m, c', it, i, d);
    }
  }

  lemma NoItems(rom: seq<nat>, items: seq<Item>, c: Cpu)
    requires |items| == 0 && Started(c, 0)
    ensures Run(rom, c, 0) == Some(At(After(items, c).value, CodeEnd(items))) && After(items, c) == Some(c)
    ensures |c.regs| == 32 && CodeEnd(items) == 0
  {
  }

  lemma LastItem(rom: seq<nat>, items: seq<Item>, c: Cpu)
    requires |items| > 0 && Placed(rom, items) && After(items, c).Some?
    ensures var front, it := items[..|items| - 1], items[|items| - 1];
            && Placed(rom, front) && ItemAt(rom, it, CodeEnd(front), DataEnd(front))
            && After(front, c).Some? && Effect(it, After(front, c).value, DataEnd(front)) == After(items, c)
            && CodeEnd(items) == CodeEnd(front) + CodeLen(it)
  {
    hide ItemAt, Effect, CodeLen;
  }

  lemma RunNext(rom: seq<nat>, c: Cpu, m: nat, c': Cpu, it: Item, i: nat, d: nat) returns (n: nat)
    requires Run(rom, c, m) == Some(At(c', i)) && |c'.regs| == 32
    requires ItemAt(rom, it, i, d) && ItemOk(it) && Effect(it, c', d).Some?
    ensures Run(rom, c, n) == Some(At(Effect(it, c', d).value, i + CodeLen(it)))
    ensures |Effect(it, c', d).value.regs| == 32 && i + CodeLen(it) <= DATA_START
  {
    hide Effect, Run, ItemAt, ItemOk, CodeLen;
    EffectPc(it, c', d, i);
    EffectKeeps(it, c', d);
    ItemInside(rom, it, i, d);
    var k := RunItem(rom, At(c', i), it, i, d);
    RunOn(rom, c, m, k);
    n := m + k;
  }

  lemma ItemInside(rom: seq<nat>, it: Item, c: nat, d: nat)
    requires ItemAt(rom, it, c, d)
    ensures c + CodeLen(it) <= DATA_START && CodeLen(it) > 0
  {
  }

  /** dret: the last instruction. */
  lemma RunDret(rom: seq<nat>, c: Cpu, n: nat, c1: Cpu, i: nat)
    requires Run(rom, c, n) == Some(At(c1, i)) && |c1.regs| == 32 && i < ROM_WORDS == |rom| && rom[i] == 0x7b200073
    requires c1.csrs.debugMode && c1.priv == 3
    ensures Run(rom, c, n + 1) == Some(Returned(c1))
  {
    var c2 := At(c1, i);
    hide Run, Step;
    StepDret(rom, c2, i);
    RunThen(rom, c, n, c2, Step(rom, c2));
  }

  lemma StepDret(rom: seq<nat>, c: Cpu, i: nat)
    requires Started(c, i) && |rom| == ROM_WORDS && rom[i] == 0x7b200073 && c.csrs.debugMode && c.priv == 3
    ensures Step(rom, c) == Some(Returned(c))
  {
    StepAt(rom, c, i);
    WordFields(0x73, 0, 0, 0, 0x7b2);
    assert 0x7b200073 == WordOf(0x73, 0, 0, 0, 0x7b2);
    hide Opcode, Funct3, Rd, Rs1, ImmI, ImmU, Load, CsrWrite, WordOf;
  }
}
