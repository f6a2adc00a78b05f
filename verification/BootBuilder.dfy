/** create_boot_rom: filling the ROM from a saved state, and what running it from reset restores. */
module BootBuilder {
  import opened Basics
  import opened BootInterp
  import opened BootRom

  /** The saved state; other gives the values of the CSRs not named. */
  datatype Saved = Saved(pc: nat, priv: nat, regs: seq<nat>, fpRegs: seq<nat>, mstatus: nat, fs: nat, fflags: nat, frm: nat,
                         mscratch: nat, mepc: nat, mcause: nat, mtval: nat,
                         sscratch: nat, sepc: nat, scause: nat, stval: nat, satp: nat, other: nat -> nat)

  function Other(s: Saved, csr: nat): (v: nat)
    ensures v < DWORD
  {
    s.other(csr) % DWORD
  }

  /** Register values are 64 bits wide, and CSRs and pc have the form csr_write leaves. */
  predicate SavedOk(s: Saved, misaC: bool) {
    && |s.regs| == 32 && |s.fpRegs| == 32 && (forall i :: 0 <= i < 32 ==> s.regs[i] < DWORD && s.fpRegs[i] < DWORD)
    && s.fflags < 32 && s.frm < 8
    && s.pc < DWORD && InsnAligned(s.pc, misaC) == s.pc && s.mstatus < DWORD && s.mstatus / 0x2000 % 4 == s.fs
    && s.mscratch < DWORD && s.sscratch < DWORD
    && s.mepc < DWORD && CanonicalS49(InsnAligned(s.mepc, misaC)) == s.mepc
    && s.sepc < DWORD && CanonicalS49(InsnAligned(s.sepc, misaC)) == s.sepc
    && s.mcause < DWORD && CauseBits(s.mcause, 256) == s.mcause
    && s.scause < DWORD && CauseBits(s.scause, 32) == s.scause
    && s.mtval < DWORD && CanonicalS49(s.mtval) == s.mtval
    && s.stval < DWORD && CanonicalS49(s.stval) == s.stval
    && s.satp < DWORD && SatpMode(s.satp) && SatpBits(s.satp) == s.satp
  }

  /** A debug-mode M-mode reset. */
  predicate AtReset(c: Cpu) {
    && c.pc == ROM_BASE_ADDR && |c.regs| == 32 && |c.fpRegs| == 32
    && c.priv == 3 && c.csrs.debugMode && c.csrs.satp == 0
  }

  /** What must be as it was saved. */
  predicate Restored(c: Cpu, s: Saved) {
    && c.pc == s.pc && c.priv == s.priv && |c.regs| == 32 && |s.regs| == 32
    && (forall i :: 1 <= i < 32 ==> c.regs[i] == s.regs[i])
    && c.csrs.mscratch == s.mscratch && c.csrs.mepc == s.mepc && c.csrs.mcause == s.mcause && c.csrs.mtval == s.mtval
    && c.csrs.sscratch == s.sscratch && c.csrs.sepc == s.sepc && c.csrs.scause == s.scause && c.csrs.stval == s.stval
    && c.csrs.satp == s.satp && !c.csrs.debugMode
  }

  /**
   * Floating-point registers are only recovered when the unit is on. The words emitted for one take the
   * high half from the integer register of the same number, so it comes back exactly when the two
   * high halves coincide.
   */
  predicate FpRegsAfter(start: Cpu, c: Cpu, s: Saved) {
    |c.fpRegs| == 32 == |s.fpRegs| && |s.regs| == 32 &&
    if s.fs == 0 then c.fpRegs == start.fpRegs
    else forall i :: 0 <= i < 32 ==>
      && c.fpRegs[i] == s.fpRegs[i] % WORD + s.regs[i] / WORD * WORD
      && (c.fpRegs[i] == s.fpRegs[i] <==> s.fpRegs[i] / WORD == s.regs[i] / WORD)
  }

  /** Its status is left dirty if it is on, and its flags and rounding mode come back. */
  predicate FpStatusAfter(start: Csrs, x: Csrs, s: Saved, missing: seq<nat>) {
    if s.fs == 0 then x.fflags == start.fflags && x.frm == start.frm && (0x300 !in missing ==> x.fs == 0)
    else
      && x.fs == 3
      && x.fflags == (if 0x001 in missing && 0x003 in missing then start.fflags else s.fflags)
      && x.frm == (if 0x002 in missing && 0x003 in missing then start.frm else s.frm)
  }

  /** What is written to a machine CSR: of the counter controls the low 12 bits sign-extended, and zero to the event counters. */
  function Written(s: Saved, csr: nat): nat {
    if csr == 0x300 then s.mstatus
    else if csr == 0x106 || csr == 0x306 || csr == 0x320 then Wrap64(Signed12(Other(s, csr)))
    else if 0xb03 <= csr <= 0xb1f then 0
    else Other(s, csr)
  }

  /** The CSRs done, unless listed as missing, hold what csr_write makes of that value; the others are as before. */
  ghost predicate MachineDone(before: map<nat, nat>, now: map<nat, nat>, addrLen: nat, s: Saved, missing: seq<nat>, done: set<nat>) {
    forall csr :: Held(now, csr) ==
      if csr in done && csr !in missing then Legal(addrLen, csr, Held(before, csr), Written(s, csr)) else Held(before, csr)
  }

  lemma MachineStep(before: map<nat, nat>, now: map<nat, nat>, addrLen: nat, s: Saved, missing: seq<nat>, done: set<nat>,
                    csr: nat, now': map<nat, nat>)
    requires MachineDone(before, now, addrLen, s, missing, done) && csr !in done
    requires now' == if csr in missing then now else now[csr := Legal(addrLen, csr, Held(now, csr), Written(s, csr))]
    ensures MachineDone(before, now', addrLen, s, missing, done + {csr})
  {
    hide Legal, Written;
  }

  /** The first n from a CSR number on. */
  function Span(csr: nat, n: nat): set<nat> {
    if n == 0 then {} else Span(csr, n - 1) + {csr + n - 1}
  }

  lemma {:induction false} InSpan(csr: nat, n: nat, k: nat)
    ensures k in Span(csr, n) <==> csr <= k < csr + n
  {
    if n > 0 {
      InSpan(csr, n - 1, k);
    }
  }

  /** All machine CSRs the ROM restores. */
  function MachineCsrs(): set<nat> {
    {0x300, 0x301, 0x344, 0xb00, 0xb02, 0x7a0, 0x302, 0x303, 0x304, 0x305, 0x105, 0x320, 0x306, 0x106, 0x3a0, 0x3a2} + Span(0x323, 29) + Span(0xb03, 29) + Span(0x3b0, 16)
  }

  lemma MachineCsrsIs(csr: nat)
    ensures csr in MachineCsrs() <==> MachineCsr(csr)
  {
    hide Span;
    InSpan(0x323, 29, csr);
    InSpan(0xb03, 29, csr);
    InSpan(0x3b0, 16, csr);
  }

  function Batch1(): set<nat> { {0x300, 0x301} + Span(0x323, 29) + Span(0xb03, 29) }

  function Batch2(): set<nat> { Batch1() + {0x7a0, 0x302, 0x303, 0x304, 0x305, 0x105} }

  function Batch3(): set<nat> { Batch2() + {0x320, 0x306, 0x106} }

  /** mstatus, misa, and the event selectors and counters below number n. */
  function EventsTo(n: nat): set<nat>
    requires n >= 3
  {
    {0x300, 0x301} + Span(0x323, n - 3) + Span(0xb03, n - 3)
  }

  lemma EventsStart()
    ensures EventsTo(3) == {0x300, 0x301} && EventsTo(32) == Batch1()
  {
    hide Span;
    SpanStart(0x323);
    SpanStart(0xb03);
  }

  lemma SpanStart(csr: nat)
    ensures Span(csr, 0) == {}
  {
  }

  lemma EventsNext(n: nat)
    requires 3 <= n < 32
    ensures MachineCsr(0x320 + n) && 0x320 + n !in EventsTo(n) + {0xb00 + n} && 0x320 + n !in {0x106, 0x300, 0x306, 0x320}
    ensures MachineCsr(0xb00 + n) && 0xb00 + n !in EventsTo(n) && 0xb00 + n != 0x300
    ensures EventsTo(n + 1) == EventsTo(n) + {0xb00 + n} + {0x320 + n}
  {
    hide Span;
    InSpan(0x323, n - 3, 0x320 + n);
    InSpan(0x323, n - 3, 0xb00 + n);
    InSpan(0xb03, n - 3, 0x320 + n);
    InSpan(0xb03, n - 3, 0xb00 + n);
    SpanNext(0x323, n - 3);
    SpanNext(0xb03, n - 3);
  }

  lemma PmpStart(done: set<nat>)
    ensures done + Span(0x3b0, 0) == done && MachineCsr(0x3a0) && MachineCsr(0x3a2)
    ensures 0x3a0 !in Span(0x3b0, 16) && 0x3a2 !in Span(0x3b0, 16)
  {
    hide Span;
    SpanStart(0x3b0);
    InSpan(0x3b0, 16, 0x3a0);
    InSpan(0x3b0, 16, 0x3a2);
  }

  lemma PmpNext(done: set<nat>, i: nat)
    requires i < 16 && done !! Span(0x3b0, 16)
    ensures MachineCsr(0x3b0 + i) && 0x3b0 + i !in done + Span(0x3b0, i) && 0x3b0 + i !in {0x106, 0x300, 0x306, 0x320}
    ensures done + Span(0x3b0, i) + {0x3b0 + i} == done + Span(0x3b0, i + 1)
  {
    hide Span;
    InSpan(0x3b0, 16, 0x3b0 + i);
    InSpan(0x3b0, i, 0x3b0 + i);
    SpanNext(0x3b0, i);
  }

  lemma SpanNext(csr: nat, n: nat)
    ensures Span(csr, n + 1) == Span(csr, n) + {csr + n}
  {
  }

  lemma MachineBatches()
    ensures Batch1() !! {0x7a0, 0x302, 0x303, 0x304, 0x305, 0x105} && Batch2() !! {0x320, 0x306, 0x106}
    ensures Batch3() !! Span(0x3b0, 16) && 0x3a0 !in Batch3() && 0x3a2 !in Batch3()
    ensures Batch2() == Batch1() + {0x7a0, 0x302, 0x303, 0x304, 0x305, 0x105}
    ensures Batch3() == Batch2() + {0x320, 0x306, 0x106}
    ensures Batch3() + Span(0x3b0, 16) + {0x3a0} + {0x3a2} == MachineCsrs() - {0x344, 0xb00, 0xb02}
  {
    hide Span;
    forall k: nat
      ensures k in Span(0x323, 29) <==> 0x323 <= k < 0x323 + 29
      ensures k in Span(0xb03, 29) <==> 0xb03 <= k < 0xb03 + 29
      ensures k in Span(0x3b0, 16) <==> 0x3b0 <= k < 0x3b0 + 16
    {
      InSpan(0x323, 29, k);
      InSpan(0xb03, 29, k);
      InSpan(0x3b0, 16, k);
    }
  }

  /** The enables of the counters, which are 32 bits wide, come back exactly when 12 bits with a sign can express them. */
  lemma CounterControlSurvives(addrLen: nat, csr: nat, held: nat, v: nat)
    requires v < WORD && (csr == 0x106 || csr == 0x306 || (csr == 0x320 && v / 2 % 2 == 0))
    ensures Legal(addrLen, csr, held, Wrap64(Signed12(v))) == v <==> v < 0x800 || v >= 0xffff_f800
  {
    hide Masked, PmpCfg, TrapVector, Wrap64, Signed12;
    SignExtended(v);
  }

  lemma BitOne(q: nat, low: nat, v: nat)
    requires v == 4096 * q + low
    ensures v / 2 % 2 == low / 2 % 2
  {
    assert v / 2 == 2 * (1024 * q) + low / 2;
  }

  lemma NegativeImmediate(low: nat, x: nat)
    requires 2048 <= low < 4096 && x == DWORD - 4096 + low
    ensures x % WORD == WORD - 4096 + low && x / 2 % 2 == low / 2 % 2
  {
    assert x == WORD * (WORD - 1) + (WORD - 4096 + low);
    BitOne(0xf_ffff_ffff_ffff, low, x);
  }

  lemma SignExtended(v: nat)
    requires v < WORD
    ensures var x := Wrap64(Signed12(v)); x / 2 % 2 == v / 2 % 2 && (x % WORD == v <==> v < 0x800 || v >= 0xffff_f800)
  {
    var q, low := v / 4096, v % 4096;
    BitOne(q, low, v);
    if low >= 2048 {
      NegativeImmediate(low, Wrap64(Signed12(v)));
    }
  }

  /** And what becomes of the floating-point unit and of the machine CSRs. */
  ghost predicate RestoredBeyond(start: Cpu, c: Cpu, s: Saved, missing: seq<nat>) {
    && FpRegsAfter(start, c, s) && FpStatusAfter(start.csrs, c.csrs, s, missing)
    && MachineDone(start.csrs.machine, c.csrs.machine, start.csrs.addrLen, s, missing, MachineCsrs())
  }

  /** The CSRs that have to be recovered for that. */
  predicate NoneMissing(missing: seq<nat>, s: Saved) {
    && 0x7b0 !in missing && 0x7b1 !in missing
    && 0x340 !in missing && 0x341 !in missing && 0x342 !in missing && 0x343 !in missing
    && 0x140 !in missing && 0x141 !in missing && 0x142 !in missing && 0x143 !in missing && 0x180 !in missing
    && (s.fs != 0 ==> 0x300 !in missing)
  }

  /** Still in M-mode, in debug mode and without translation. */
  predicate Ready(c: Cpu) {
    |c.regs| == 32 && c.priv == 3 && c.csrs.debugMode && c.csrs.satp == 0
  }

  /** Nothing changed but the two scratch registers. */
  predicate Kept(c: Cpu, c': Cpu) {
    && Ready(c') && c'.csrs == c.csrs && |c.regs| == 32 && c'.fpRegs == c.fpRegs && c'.io == c.io
    && (forall i :: 3 <= i < 32 ==> c'.regs[i] == c.regs[i])
  }

  /** The value goes to the first register, then to the CSR. */
  function ThroughX1(c: Cpu, csrn: nat, val: nat): Option<Cpu> {
    CsrWrite(WithReg(c, 1, val), csrn, val)
  }

  lemma ZeroWritten(s: Saved, csr: nat)
    requires 0xb03 <= csr <= 0xb1f
    ensures Wrap64(Signed12(0)) == Written(s, csr)
  {
  }

  lemma MisaNumber()
    ensures MachineCsr(0x301)
  {
  }

  lemma CsrNumber(csrn: nat)
    ensures MachineCsr(csrn) ==> csrn < 4096
  {
  }

  lemma MachineIs(x: Csrs, csrn: nat, val: nat)
    requires MachineCsr(csrn) && csrn != 0x300
    ensures CsrsWrite(x, csrn, val) == Some(MachineWrite(x, csrn, val))
  {
    hide Legal, MachineWrite;
  }

  lemma CsrEffect(csrn: nat, val: nat, c: Cpu)
    requires Ready(c) && CsrsWrite(c.csrs, csrn, val).Some?
    ensures var e := ThroughX1(c, csrn, val);
            && e.Some? && e.value.csrs == CsrsWrite(c.csrs, csrn, val).value && e.value.priv == 3
            && |e.value.regs| == 32 && e.value.fpRegs == c.fpRegs && e.value.io == c.io
            && forall i :: 2 <= i < 32 ==> e.value.regs[i] == c.regs[i]
  {
    hide CsrsWrite;
  }

  /** The two items of a CSR recovery. */
  lemma AfterCsr64(items: seq<Item>, csrn: nat, val: nat, start: Cpu)
    requires After(items, start).Some? && After(items, start).value.csrs.satp == 0 && |After(items, start).value.regs| == 32
    ensures After(items + [IntReg(1, val)] + [CsrX1(csrn)], start) == ThroughX1(After(items, start).value, csrn, val)
  {
    AfterSnoc(items, IntReg(1, val), start);
    AfterSnoc(items + [IntReg(1, val)], CsrX1(csrn), start);
    hide After, CsrWrite;
  }

  lemma AfterCsr12(items: seq<Item>, csrn: nat, val: nat, start: Cpu)
    requires After(items, start).Some? && |After(items, start).value.regs| == 32
    ensures After(items + [SetX1(val)] + [CsrX1(csrn)], start) ==
            ThroughX1(After(items, start).value, csrn, Wrap64(Signed12(val)))
  {
    AfterSnoc(items, SetX1(val), start);
    AfterSnoc(items + [SetX1(val)], CsrX1(csrn), start);
    hide After, CsrWrite, Signed12;
  }

  // ---- appending an item ---------------------------------------------------------------------

  lemma Appended(rom: seq<nat>, rom': seq<nat>, items: seq<Item>, it: Item, c: nat, d: nat)
    requires Placed(rom, items) && c == CodeEnd(items) && d == DataEnd(items)
    requires |rom| == ROM_WORDS == |rom'| && c + CodeLen(it) <= DATA_START <= d && d + DataLen(it) <= ROM_WORDS
    requires d % 2 == 0 && c + 3 <= d
    requires forall i :: 0 <= i < c || DATA_START <= i < d ==> rom'[i] == rom[i]
    requires rom'[c..c + CodeLen(it)] == CodeOf(it, c, d) && rom'[d..d + DataLen(it)] == DataOf(it)
    ensures Placed(rom', items + [it])
    ensures CodeEnd(items + [it]) == c + CodeLen(it) && DataEnd(items + [it]) == d + DataLen(it)
  {
    hide CodeOf, DataOf, CodeLen, DataLen, CodeEnd, DataEnd, Placed;
    PlacedKept(rom, rom', items);
    PlacedSnoc(rom', items, it);
    Ends(items, it);
  }

  class RomBuilder {
    const rom: array<nat>
    /** missing_csrs */
    const missing: seq<nat>
    var codePos: nat
    var dataPos: nat
    /** What was emitted, and the state at reset. */
    ghost var items: seq<Item>
    ghost const start: Cpu
    /** Whether the code begins with the words that keep other harts out. */
    ghost var guarded: bool

    ghost predicate Valid()
      reads this, rom
    {
      && rom.Length == ROM_WORDS && |start.regs| == 32
      && codePos == CodeEnd(items) <= DATA_START && dataPos == DataEnd(items) && DATA_START <= dataPos <= ROM_WORDS
      && dataPos % 2 == 0
      && Placed(rom[..], items) && (forall i :: 0 <= i < |items| ==> ItemOk(items[i]))
      && (forall i :: codePos <= i < DATA_START || dataPos <= i < ROM_WORDS ==> rom[i] == 0)
      && (guarded ==> |items| > 0 && items[0] == HangNonzeroHart)
    }

    /** The state the emitted code leads to. */
    ghost function Now(): Option<Cpu>
      reads this
    {
      After(items, start)
    }

    ghost predicate Running()
      reads this, rom
    {
      Valid() && Now().Some? && Ready(Now().value)
    }

    constructor (missing: seq<nat>, ghost start: Cpu)
      requires AtReset(start)
      ensures Running() && fresh(rom) && this.missing == missing && this.start == start
      ensures codePos == 0 && dataPos == DATA_START && Now() == Some(start) && items == [] && !guarded
    {
      this.missing := missing;
      this.start := start;
      rom := new nat[ROM_WORDS](_ => 0);
      codePos, dataPos, items, guarded := 0, DATA_START, [], false;
    }

    /** rom[code_pos++] = w for each of the code words, rom[data_pos++] = w for each of the data words. */
    method Emit(code: seq<nat>, data: seq<nat>)
      requires codePos + |code| <= dataPos && dataPos + |data| <= rom.Length
      modifies this`codePos, this`dataPos, rom
      ensures codePos == old(codePos) + |code| && dataPos == old(dataPos) + |data|
      ensures rom[old(codePos)..codePos] == code && rom[old(dataPos)..dataPos] == data
      ensures forall i :: 0 <= i < rom.Length && !(old(codePos) <= i < codePos) && !(old(dataPos) <= i < dataPos) ==>
        rom[i] == old(rom[i])
    {
      for k := 0 to |code|
        invariant codePos == old(codePos) + k && dataPos == old(dataPos)
        invariant forall i :: 0 <= i < rom.Length ==>
          rom[i] == if old(codePos) <= i < codePos then code[i - old(codePos)] else old(rom[i])
      {
        rom[codePos] := code[k];
        codePos := codePos + 1;
      }
      ghost var c := codePos;
      for k := 0 to |data|
        invariant dataPos == old(dataPos) + k && codePos == c
        invariant forall i :: 0 <= i < rom.Length ==>
          rom[i] == if old(codePos) <= i < codePos then code[i - old(codePos)]
                    else if old(dataPos) <= i < dataPos then data[i - old(dataPos)] else old(rom[i])
      {
        rom[dataPos] := data[k];
        dataPos := dataPos + 1;
      }
    }

    /** skip_csr_recovery */
    method SkipCsrRecovery(csrn: nat) returns (skip: bool)
      ensures skip == (csrn in missing)
    {
      for i := 0 to |missing|
        invariant forall j :: 0 <= j < i ==> missing[j] != csrn
      {
        if missing[i] == csrn {
          return true;
        }
      }
      return false;
    }

    /** create_csr64_recovery: the words of a register recovery, then a csrrw. */
    method CreateCsr64Recovery(csrn: nat, val: nat)
      requires Valid() && csrn < 4096 && val < DWORD && codePos + 6 <= DATA_START && dataPos + 2 <= ROM_WORDS
      modifies this`codePos, this`dataPos, this`items, rom
      ensures Valid() && codePos <= old(codePos) + 4 && dataPos <= old(dataPos) + 2
      ensures items == if csrn in missing then old(items) else old(items) + [IntReg(1, val)] + [CsrX1(csrn)]
    {
      hide Placed, CodeEnd, DataEnd;
      var skip := SkipCsrRecovery(csrn);
      if skip {
        return;
      }
      CreateRegRecovery(1, val);
      CreateCsrrwX1(csrn);
    }

    method CreateCsr12Recovery(csrn: nat, val: nat)
      requires Valid() && csrn < 4096 && codePos + 4 <= DATA_START
      modifies this`codePos, this`dataPos, this`items, rom
      ensures Valid() && codePos <= old(codePos) + 2 && dataPos == old(dataPos)
      ensures items == if csrn in missing then old(items) else old(items) + [SetX1(val)] + [CsrX1(csrn)]
    {
      hide Placed, CreateSeti, CodeEnd, DataEnd;
      var skip := SkipCsrRecovery(csrn);
      if skip {
        return;
      }
      Emit([CreateSeti(1, val)], []);
      Appended(old(rom[..]), rom[..], items, SetX1(val), old(codePos), dataPos);
      items := items + [SetX1(val)];
      CreateCsrrwX1(csrn);
    }

    /** rom[code_pos++] = create_csrrw(1, csrn) */
    method CreateCsrrwX1(csrn: nat)
      requires Valid() && csrn < 4096 && codePos + 3 <= DATA_START
      modifies this`codePos, this`dataPos, this`items, rom
      ensures Valid() && codePos == old(codePos) + 1 && dataPos == old(dataPos) && items == old(items) + [CsrX1(csrn)]
    {
      hide Placed, CreateCsrrw, CodeEnd, DataEnd;
      Emit([CreateCsrrw(1, csrn)], []);
      Appended(old(rom[..]), rom[..], items, CsrX1(csrn), old(codePos), dataPos);
      items := items + [CsrX1(csrn)];
    }

    method CreateRegRecovery(rn: RegNo, val: nat)
      requires Valid() && rn > 0 && val < DWORD && codePos + 3 <= DATA_START && dataPos + 2 <= ROM_WORDS
      modifies this`codePos, this`dataPos, this`items, rom
      ensures Valid() && codePos == old(codePos) + 3 && dataPos == old(dataPos) + 2
      ensures items == old(items) + [IntReg(rn, val)]
    {
      hide Placed, CreateAuipc, CreateAddi, CreateLd, CodeEnd, DataEnd;
      var dataOff := 4 * (dataPos - codePos);
      Emit([CreateAuipc(rn, dataOff), CreateAddi(rn, dataOff), CreateLd(rn, rn)], [val % WORD, val / WORD]);
      Appended(old(rom[..]), rom[..], items, IntReg(rn, val), old(codePos), old(dataPos));
      items := items + [IntReg(rn, val)];
    }

    /** The body of the loop over the floating-point registers. */
    method CreateFpRegRecovery(fn: RegNo, lo: nat, hi: nat)
      requires Valid() && codePos + 3 <= DATA_START && dataPos + 2 <= ROM_WORDS
      modifies this`codePos, this`dataPos, this`items, rom
      ensures Valid() && codePos == old(codePos) + 3 && dataPos == old(dataPos) + 2
      ensures items == old(items) + [FpReg(fn, lo, hi)]
    {
      hide Placed, CreateAuipc, CreateAddi, CreateFld, CodeEnd, DataEnd;
      var dataOff := 4 * (dataPos - codePos);
      Emit([CreateAuipc(1, dataOff), CreateAddi(1, dataOff), CreateFld(fn, 1)], [lo, hi]);
      Appended(old(rom[..]), rom[..], items, FpReg(fn, lo, hi), old(codePos), old(dataPos));
      items := items + [FpReg(fn, lo, hi)];
    }

    /** create_io64_recovery: the words of two register recoveries, then a store. */
    method CreateIo64Recovery(addr: nat, val: nat)
      requires Valid() && addr < DWORD && val < DWORD && codePos + 9 <= DATA_START && dataPos + 4 <= ROM_WORDS
      modifies this`codePos, this`dataPos, this`items, rom
      ensures Valid() && codePos == old(codePos) + 7 && dataPos == old(dataPos) + 4
      ensures items == old(items) + [IntReg(1, addr)] + [IntReg(2, val)] + [StoreX2]
    {
      hide Placed, CreateSd, CodeEnd, DataEnd;
      CreateRegRecovery(1, addr);
      CreateRegRecovery(2, val);
      ghost var before, c := rom[..], codePos;
      Emit([CreateSd(1, 2)], []);
      Appended(before, rom[..], items, StoreX2, c, dataPos);
      items := items + [StoreX2];
    }

    method CreateHangNonzeroHart()
      requires Valid() && codePos + 4 <= DATA_START && items == []
      modifies this`codePos, this`dataPos, this`items, this`guarded, rom
      ensures Valid() && guarded && codePos == old(codePos) + 4 && dataPos == old(dataPos) && items == old(items) + [HangNonzeroHart]
    {
      hide Placed, CodeEnd, DataEnd;
      Emit([0xf1402573, 0x00050663, 0x10500073, 0xffdff06f], []);
      Appended(old(rom[..]), rom[..], items, HangNonzeroHart, old(codePos), dataPos);
      items, guarded := items + [HangNonzeroHart], true;
    }

    /** rom[code_pos++] = create_csrrs(1, 0x7b2) */
    method CreateCsrrsX1()
      requires Valid() && codePos + 3 <= DATA_START
      modifies this`codePos, this`dataPos, this`items, rom
      ensures Valid() && codePos == old(codePos) + 1 && dataPos == old(dataPos) && items == old(items) + [RestoreX1]
    {
      hide Placed, CodeEnd, DataEnd, CreateCsrrs;
      Emit([CreateCsrrs(1, 0x7b2)], []);
      Appended(old(rom[..]), rom[..], items, RestoreX1, old(codePos), dataPos);
      items := items + [RestoreX1];
    }

    // ---- with their effects -------------------------------------------------------------------------

    /** The machine CSRs done since the given state, and nothing else but scratch registers, have changed. */
    ghost predicate Progress(c: Cpu, s: Saved, done: set<nat>)
      reads this, rom
    {
      && Running()
      && var c' := Now().value;
         && c'.csrs == c.csrs.(machine := c'.csrs.machine) && c'.fpRegs == c.fpRegs && c'.io == c.io
         && MachineDone(c.csrs.machine, c'.csrs.machine, c.csrs.addrLen, s, missing, done)
    }

    method RestoreMachine64(csrn: nat, s: Saved, ghost c: Cpu, ghost done: set<nat>)
      requires Progress(c, s, done) && MachineCsr(csrn) && csrn !in done && csrn !in {0x106, 0x300, 0x306, 0x320}
      requires !(0xb03 <= csrn <= 0xb1f) && codePos + 6 <= DATA_START && dataPos + 2 <= ROM_WORDS
      modifies this`codePos, this`dataPos, this`items, rom
      ensures Progress(c, s, done + {csrn}) && codePos <= old(codePos) + 4 && dataPos <= old(dataPos) + 2
      ensures forall i :: 2 <= i < 32 ==> Now().value.regs[i] == old(Now()).value.regs[i]
    {
      hide MachineCsr, CsrWrite, After, ThroughX1, Placed, CodeEnd, DataEnd, ItemOk, CsrsWrite, MachineDone, Legal;
      ghost var c0 := Now().value;
      CsrNumber(csrn);
      var val := Other(s, csrn);
      MachineIs(c0.csrs, csrn, val);
      CsrEffect(csrn, val, c0);
      CreateCsr64Recovery(csrn, val);
      AfterCsr64(old(items), csrn, val, start);
      MachineStep(c.csrs.machine, c0.csrs.machine, c.csrs.addrLen, s, missing, done, csrn, Now().value.csrs.machine);
    }

    method RestoreMachine12(csrn: nat, val: nat, s: Saved, ghost c: Cpu, ghost done: set<nat>)
      requires Progress(c, s, done) && MachineCsr(csrn) && csrn != 0x300 && csrn !in done && codePos + 4 <= DATA_START
      requires Wrap64(Signed12(val)) == Written(s, csrn)
      modifies this`codePos, this`dataPos, this`items, rom
      ensures Progress(c, s, done + {csrn}) && codePos <= old(codePos) + 2 && dataPos == old(dataPos)
    {
      hide MachineCsr, CsrWrite, After, ThroughX1, Placed, CodeEnd, DataEnd, ItemOk, CsrsWrite, MachineDone, Legal, Signed12, Wrap64, Written;
      ghost var c0 := Now().value;
      CsrNumber(csrn);
      MachineIs(c0.csrs, csrn, Wrap64(Signed12(val)));
      CsrEffect(csrn, Wrap64(Signed12(val)), c0);
      CreateCsr12Recovery(csrn, val);
      AfterCsr12(old(items), csrn, val, start);
      MachineStep(c.csrs.machine, c0.csrs.machine, c.csrs.addrLen, s, missing, done, csrn, Now().value.csrs.machine);
    }

    method RestoreCsr64(csrn: nat, val: nat)
      requires Running() && csrn < 4096 && val < DWORD && csrn !in missing && CsrsWrite(Now().value.csrs, csrn, val).Some?
      requires codePos + 6 <= DATA_START && dataPos + 2 <= ROM_WORDS
      modifies this`codePos, this`dataPos, this`items, rom
      ensures Valid() && codePos <= old(codePos) + 4 && dataPos <= old(dataPos) + 2 && Now().Some?
      ensures var c, c' := old(Now()).value, Now().value;
              && c'.csrs == CsrsWrite(c.csrs, csrn, val).value && c'.priv == 3 && |c'.regs| == 32
              && c'.fpRegs == c.fpRegs && c'.io == c.io
              && forall i :: 2 <= i < 32 ==> c'.regs[i] == c.regs[i]
    {
      hide CsrsWrite, After, ThroughX1, Placed, CodeEnd, DataEnd, ItemOk;
      CreateCsr64Recovery(csrn, val);
      CsrEffect(csrn, val, old(Now()).value);
      AfterCsr64(old(items), csrn, val, start);
    }

    method RestoreReg(rn: RegNo, val: nat)
      requires Running() && rn > 0 && val < DWORD && codePos + 3 <= DATA_START && dataPos + 2 <= ROM_WORDS
      modifies this`codePos, this`dataPos, this`items, rom
      ensures Running() && codePos == old(codePos) + 3 && dataPos == old(dataPos) + 2
      ensures Now().value == WithReg(old(Now()).value, rn, val)
    {
      hide After, Placed, CodeEnd, DataEnd, ItemOk;
      CreateRegRecovery(rn, val);
      AfterSnoc(old(items), IntReg(rn, val), start);
    }

    /** pc and the privilege, for dret. */
    method RestoreDebug(s: Saved)
      requires Running() && SavedOk(s, Now().value.csrs.misaC) && s.priv < 4 && 0x7b0 !in missing && 0x7b1 !in missing
      requires codePos + 8 <= DATA_START && dataPos + 2 <= ROM_WORDS
      modifies this`codePos, this`dataPos, this`items, rom
      ensures Running() && codePos <= old(codePos) + 6 && dataPos <= old(dataPos) + 2
      ensures var x, x' := old(Now()).value.csrs, Now().value.csrs;
              x' == x.(dpc := s.pc, dcsr := x'.dcsr) && x'.dcsr % 4 == s.priv && x'.dcsr / 512 % 4 == 3
      ensures Now().value.fpRegs == old(Now()).value.fpRegs && Now().value.io == old(Now()).value.io
    {
      hide After, Placed, CodeEnd, DataEnd, ItemOk, DcsrBits;
      RestoreCsr64(0x7b1, s.pc);
      ghost var before := items;
      CreateCsr12Recovery(0x7b0, 0x600 + s.priv);
      AfterCsr12(before, 0x7b0, 0x600 + s.priv, start);
      DcsrPriv(After(before, start).value.csrs.dcsr, s.priv);
    }

    /** mstatus first, because it switches the floating-point unit on. */
    method RestoreFpu(s: Saved)
      requires Running() && SavedOk(s, Now().value.csrs.misaC) && (s.fs != 0 ==> 0x300 !in missing)
      requires |Now().value.fpRegs| == 32 && codePos + 114 <= DATA_START && dataPos + 68 <= ROM_WORDS
      modifies this`codePos, this`dataPos, this`items, rom
      ensures Running() && codePos <= old(codePos) + 110 && dataPos <= old(dataPos) + 68
      ensures var x, x' := old(Now()).value.csrs, Now().value.csrs;
              && x' == x.(fs := x'.fs, fflags := x'.fflags, frm := x'.frm, machine := x'.machine)
              && MachineDone(x.machine, x'.machine, x.addrLen, s, missing, {0x300, 0x301}) && FpStatusAfter(x, x', s, missing)
      ensures FpRegsAfter(old(Now()).value, Now().value, s) && Now().value.io == old(Now()).value.io
    {
      hide After, Placed, CodeEnd, DataEnd, ItemOk, SavedOk, MachineDone, CsrsWrite, FpRegsAfter;
      SavedFpu(s, Now().value.csrs.misaC);
      ghost var x := Now().value.csrs;
      if 0x300 in missing {
        CreateCsr64Recovery(0x300, s.mstatus);
      } else {
        MstatusIs(x, s.mstatus);
        RestoreCsr64(0x300, s.mstatus);
      }
      MstatusDone(x, Now().value.csrs, s, missing);
      ghost var c1 := Now().value.(csrs := Now().value.csrs.(machine := x.machine));
      assert Progress(c1, s, {0x300});
      MisaNumber();
      RestoreMachine64(0x301, s, c1, {0x300});
      assert {0x300} + {0x301} == {0x300, 0x301};
      if s.fs != 0 {
        RestoreFcsr(s);
        ghost var c := Now().value;
        RestoreFpRegs(s);
        FpRegsSame(old(Now()).value, c, Now().value, Now().value, s);
      } else {
        FpRegsKept(old(Now()).value, Now().value, s);
      }
    }

    method RestoreFcsr(s: Saved)
      requires Running() && Now().value.csrs.fs != 0 && s.fflags < 32 && s.frm < 8 && codePos + 8 <= DATA_START
      modifies this`codePos, this`dataPos, this`items, rom
      ensures Running() && codePos <= old(codePos) + 6 && dataPos == old(dataPos)
      ensures var x, x' := old(Now()).value.csrs, Now().value.csrs;
              && x' == x.(fs := x'.fs, fflags := x'.fflags, frm := x'.frm) && x'.fs != 0
              && x'.fflags == (if 0x001 in missing && 0x003 in missing then x.fflags else s.fflags)
              && x'.frm == (if 0x002 in missing && 0x003 in missing then x.frm else s.frm)
      ensures Now().value.fpRegs == old(Now()).value.fpRegs && Now().value.io == old(Now()).value.io
    {
      hide After, Placed, CodeEnd, DataEnd, ItemOk, CsrsWrite;
      FcsrIs(s.fflags, s.frm);
      RestoreFpCsr(0x001, s.fflags);
      RestoreFpCsr(0x002, s.frm);
      RestoreFpCsr(0x003, s.fflags + 32 * s.frm);
    }

    method RestoreFpCsr(csrn: nat, val: nat)
      requires Running() && csrn in {0x001, 0x002, 0x003} && Now().value.csrs.fs != 0 && codePos + 4 <= DATA_START
      requires Wrap64(Signed12(val)) == val
      modifies this`codePos, this`dataPos, this`items, rom
      ensures Running() && codePos <= old(codePos) + 2 && dataPos == old(dataPos)
      ensures Now().value.csrs == if csrn in missing then old(Now()).value.csrs else FcsrWrite(old(Now()).value.csrs, csrn, val)
      ensures Now().value.fpRegs == old(Now()).value.fpRegs && Now().value.io == old(Now()).value.io
    {
      hide After, Placed, CodeEnd, DataEnd, ItemOk, Signed12, CsrsWrite, Wrap64;
      FcsrWriteIs(Now().value.csrs, csrn, val);
      CsrEffect(csrn, val, Now().value);
      CreateCsr12Recovery(csrn, val);
      AfterCsr12(old(items), csrn, val, start);
    }

    /** The loop over the floating-point registers. */
    method RestoreFpRegs(s: Saved)
      requires Running() && Now().value.csrs.fs != 0 && |Now().value.fpRegs| == 32 && |s.fpRegs| == 32 == |s.regs|
      requires forall i :: 0 <= i < 32 ==> s.regs[i] < DWORD && s.fpRegs[i] < DWORD
      requires s.fs != 0 && codePos + 96 <= DATA_START && dataPos + 64 <= ROM_WORDS
      modifies this`codePos, this`dataPos, this`items, rom
      ensures Running() && codePos == old(codePos) + 96 && dataPos == old(dataPos) + 64
      ensures Now().value.csrs == old(Now()).value.csrs.(fs := 3) && FpRegsAfter(old(Now()).value, Now().value, s)
      ensures Now().value.io == old(Now()).value.io
    {
      hide After, Placed, CodeEnd, DataEnd, ItemOk;
      for i := 0 to 32
        invariant Running() && |Now().value.fpRegs| == 32 && Now().value.io == old(Now()).value.io
        invariant Now().value.csrs == old(Now()).value.csrs.(fs := if i == 0 then old(Now()).value.csrs.fs else 3)
        invariant codePos == old(codePos) + 3 * i && dataPos == old(dataPos) + 2 * i
        invariant forall j :: 0 <= j < i ==> Now().value.fpRegs[j] == s.fpRegs[j] % WORD + s.regs[j] / WORD * WORD
      {
        ghost var before := items;
        CreateFpRegRecovery(i, s.fpRegs[i] % WORD, s.regs[i] / WORD);
        AfterSnoc(before, FpReg(i, s.fpRegs[i] % WORD, s.regs[i] / WORD), start);
      }
      FpRegsMixed(old(Now()).value, Now().value, s);
    }

    /** Counters, delegation, vectors and physical memory protection. */
    method RestoreMachine(s: Saved, ghost c: Cpu)
      requires Progress(c, s, {0x300, 0x301}) && codePos + 280 <= DATA_START && dataPos + 106 <= ROM_WORDS
      modifies this`codePos, this`dataPos, this`items, rom
      ensures Progress(c, s, MachineCsrs() - {0x344, 0xb00, 0xb02}) && codePos <= old(codePos) + 276 && dataPos <= old(dataPos) + 106
    {
      hide *;
      MachineBatches();
      RestoreEvents(s, c);
      RestoreDelegation(s, c, Batch1());
      RestoreCounterControls(s, c, Batch2());
      RestorePmp(s, c, Batch3());
    }

    method RestoreEvents(s: Saved, ghost c: Cpu)
      requires Progress(c, s, {0x300, 0x301}) && codePos + 180 <= DATA_START && dataPos + 58 <= ROM_WORDS
      modifies this`codePos, this`dataPos, this`items, rom
      ensures Progress(c, s, Batch1()) && codePos <= old(codePos) + 174 && dataPos <= old(dataPos) + 58
    {
      hide *;
      EventsStart();
      for i := 3 to 32
        invariant Progress(c, s, EventsTo(i))
        invariant codePos <= old(codePos) + 6 * (i - 3) && dataPos <= old(dataPos) + 2 * (i - 3)
        invariant old(codePos) + 180 <= DATA_START && old(dataPos) + 58 <= ROM_WORDS
      {
        EventsNext(i);
        ZeroWritten(s, 0xb00 + i);
        RestoreMachine12(0xb00 + i, 0, s, c, EventsTo(i));
        RestoreMachine64(0x320 + i, s, c, EventsTo(i) + {0xb00 + i});
      }
    }

    method RestoreDelegation(s: Saved, ghost c: Cpu, ghost done: set<nat>)
      requires Progress(c, s, done) && done !! {0x7a0, 0x302, 0x303, 0x304, 0x305, 0x105}
      requires codePos + 26 <= DATA_START && dataPos + 12 <= ROM_WORDS
      modifies this`codePos, this`dataPos, this`items, rom
      ensures Progress(c, s, done + {0x7a0, 0x302, 0x303, 0x304, 0x305, 0x105})
      ensures codePos <= old(codePos) + 24 && dataPos <= old(dataPos) + 12
    {
      hide Progress;
      RestoreMachine64(0x7a0, s, c, done);
      RestoreMachine64(0x302, s, c, done + {0x7a0});
      RestoreMachine64(0x303, s, c, done + {0x7a0} + {0x302});
      RestoreMachine64(0x304, s, c, done + {0x7a0} + {0x302} + {0x303});
      RestoreMachine64(0x305, s, c, done + {0x7a0} + {0x302} + {0x303} + {0x304});
      RestoreMachine64(0x105, s, c, done + {0x7a0} + {0x302} + {0x303} + {0x304} + {0x305});
      assert done + {0x7a0, 0x302, 0x303, 0x304, 0x305, 0x105} ==
        done + {0x7a0} + {0x302} + {0x303} + {0x304} + {0x305} + {0x105};
    }

    method RestoreCounterControls(s: Saved, ghost c: Cpu, ghost done: set<nat>)
      requires Progress(c, s, done) && done !! {0x320, 0x306, 0x106} && codePos + 8 <= DATA_START
      modifies this`codePos, this`dataPos, this`items, rom
      ensures Progress(c, s, done + {0x320, 0x306, 0x106}) && codePos <= old(codePos) + 6 && dataPos == old(dataPos)
    {
      hide Progress;
      RestoreMachine12(0x320, Other(s, 0x320), s, c, done);
      RestoreMachine12(0x306, Other(s, 0x306), s, c, done + {0x320});
      RestoreMachine12(0x106, Other(s, 0x106), s, c, done + {0x320} + {0x306});
      assert done + {0x320, 0x306, 0x106} == done + {0x320} + {0x306} + {0x106};
    }

    method RestorePmp(s: Saved, ghost c: Cpu, ghost done: set<nat>)
      requires Progress(c, s, done) && codePos + 76 <= DATA_START && dataPos + 36 <= ROM_WORDS
      requires done !! Span(0x3b0, 16) && 0x3a0 !in done && 0x3a2 !in done
      modifies this`codePos, this`dataPos, this`items, rom
      ensures Progress(c, s, done + Span(0x3b0, 16) + {0x3a0} + {0x3a2})
      ensures codePos <= old(codePos) + 72 && dataPos <= old(dataPos) + 36
    {
      hide *;
      PmpStart(done);
      for i := 0 to 16
        invariant Progress(c, s, done + Span(0x3b0, i))
        invariant codePos <= old(codePos) + 4 * i && dataPos <= old(dataPos) + 2 * i
        invariant old(codePos) + 76 <= DATA_START && old(dataPos) + 36 <= ROM_WORDS
      {
        PmpNext(done, i);
        RestoreMachine64(0x3b0 + i, s, c, done + Span(0x3b0, i));
      }
      RestoreMachine64(0x3a0, s, c, done + Span(0x3b0, 16));
      RestoreMachine64(0x3a2, s, c, done + Span(0x3b0, 16) + {0x3a0});
    }

    /** The registers of trap handlers. */
    method RestoreTraps(s: Saved)
      requires Running() && SavedOk(s, Now().value.csrs.misaC)
      requires 0x340 !in missing && 0x341 !in missing && 0x342 !in missing && 0x343 !in missing
      requires 0x140 !in missing && 0x141 !in missing && 0x142 !in missing && 0x143 !in missing
      requires codePos + 34 <= DATA_START && dataPos + 16 <= ROM_WORDS
      modifies this`codePos, this`dataPos, this`items, rom
      ensures Running() && codePos <= old(codePos) + 32 && dataPos <= old(dataPos) + 16
      ensures Now().value.csrs == old(Now()).value.csrs.(mscratch := s.mscratch, mepc := s.mepc, mcause := s.mcause,
                mtval := s.mtval, sscratch := s.sscratch, sepc := s.sepc, scause := s.scause, stval := s.stval)
      ensures Now().value.fpRegs == old(Now()).value.fpRegs && Now().value.io == old(Now()).value.io
    {
      hide After, Placed, CodeEnd, DataEnd, ItemOk, CanonicalS49, InsnAligned, CauseBits, SatpBits, SatpMode;
      RestoreCsr64(0x340, s.mscratch);
      RestoreCsr64(0x341, s.mepc);
      RestoreCsr64(0x342, s.mcause);
      RestoreCsr64(0x343, s.mtval);
      RestoreCsr64(0x140, s.sscratch);
      RestoreCsr64(0x141, s.sepc);
      RestoreCsr64(0x142, s.scause);
      RestoreCsr64(0x143, s.stval);
    }

    /** All registers but the two the recovery itself uses. */
    method RestoreRegs(s: Saved)
      requires Running() && |s.regs| == 32 && (forall i :: 0 <= i < 32 ==> s.regs[i] < DWORD)
      requires codePos + 87 <= DATA_START && dataPos + 58 <= ROM_WORDS
      modifies this`codePos, this`dataPos, this`items, rom
      ensures Running() && codePos <= old(codePos) + 87 && dataPos <= old(dataPos) + 58
      ensures Now().value.csrs == old(Now()).value.csrs
      ensures Now().value.fpRegs == old(Now()).value.fpRegs && Now().value.io == old(Now()).value.io
      ensures forall i :: 3 <= i < 32 ==> Now().value.regs[i] == s.regs[i]
    {
      hide After, Placed, CodeEnd, DataEnd, ItemOk;
      ghost var x, fp, io := Now().value.csrs, Now().value.fpRegs, Now().value.io;
      var code, data := codePos, dataPos;
      for i := 3 to 32
        invariant Running() && Now().value.csrs == x && Now().value.fpRegs == fp && Now().value.io == io
        invariant codePos == code + 3 * (i - 3) && dataPos == data + 2 * (i - 3)
        invariant forall j :: 3 <= j < i ==> Now().value.regs[j] == s.regs[j]
      {
        RestoreReg(i, s.regs[i]);
      }
    }

    /** A 64-bit store to the interrupt controller. */
    method RestoreIo(addr: nat, val: nat)
      requires Running() && DeviceAddress(addr) && val < DWORD && codePos + 9 <= DATA_START && dataPos + 4 <= ROM_WORDS
      modifies this`codePos, this`dataPos, this`items, rom
      ensures Running() && codePos == old(codePos) + 7 && dataPos == old(dataPos) + 4
      ensures Now().value.io == old(Now()).value.io + [(addr, val)]
      ensures Kept(old(Now()).value, Now().value.(io := old(Now()).value.io))
    {
      hide After, Placed, CodeEnd, DataEnd, ItemOk;
      CreateIo64Recovery(addr, val);
      AfterSnoc(old(items), IntReg(1, addr), start);
      AfterSnoc(old(items) + [IntReg(1, addr)], IntReg(2, val), start);
      AfterSnoc(old(items) + [IntReg(1, addr)] + [IntReg(2, val)], StoreX2, start);
    }

    /** Timers and counters; these use the first two registers once more. */
    method RestoreTimers(s: Saved, clintBase: nat, timecmp: nat, rtc: nat, ghost c: Cpu)
      requires Progress(c, s, MachineCsrs() - {0xb00, 0xb02}) && timecmp < DWORD && rtc < DWORD
      requires DeviceAddress(clintBase + 0x4000) && DeviceAddress(clintBase + 0xbff8)
      requires codePos + 26 <= DATA_START && dataPos + 12 <= ROM_WORDS
      modifies this`codePos, this`dataPos, this`items, rom
      ensures Progress(c.(io := c.io + [(clintBase + 0x4000, timecmp), (clintBase + 0xbff8, rtc)]), s, MachineCsrs())
      ensures codePos <= old(codePos) + 22 && dataPos <= old(dataPos) + 12
      ensures forall i :: 3 <= i < 32 ==> Now().value.regs[i] == old(Now()).value.regs[i]
    {
      hide After, Placed, CodeEnd, DataEnd, ItemOk, MachineDone, MachineCsrs, DeviceAddress;
      ghost var done := MachineCsrs() - {0xb00, 0xb02};
      MachineCsrsIs(0xb00);
      MachineCsrsIs(0xb02);
      RestoreIo(clintBase + 0x4000, timecmp);
      ghost var c1 := c.(io := Now().value.io);
      RestoreMachine64(0xb02, s, c1, done);
      RestoreMachine64(0xb00, s, c1, done + {0xb02});
      assert done + {0xb02} + {0xb00} == MachineCsrs();
      RestoreIo(clintBase + 0xbff8, rtc);
    }

    /** The first two registers, then satp by way of dscratch. */
    method RestoreLast(s: Saved)
      requires Running() && SavedOk(s, Now().value.csrs.misaC) && 0x180 !in missing
      requires codePos + 17 <= DATA_START && dataPos + 6 <= ROM_WORDS
      modifies this`codePos, this`dataPos, this`items, rom
      ensures Valid() && codePos <= old(codePos) + 12 && dataPos <= old(dataPos) + 6 && Now().Some?
      ensures var c, c' := old(Now()).value, Now().value;
              && c'.csrs == c.csrs.(satp := s.satp, dscratch := s.regs[1]) && c'.priv == 3 && c'.fpRegs == c.fpRegs && c'.io == c.io
              && |c'.regs| == 32 && c'.regs[1] == s.regs[1] && c'.regs[2] == s.regs[2]
              && forall i :: 3 <= i < 32 ==> c'.regs[i] == c.regs[i]
    {
      hide After, Placed, CodeEnd, DataEnd, ItemOk, SatpBits, SatpMode;
      RestoreReg(1, s.regs[1]);
      RestoreReg(2, s.regs[2]);
      ghost var before := items;
      CreateCsrrwX1(0x7b2);
      AfterSnoc(before, CsrX1(0x7b2), start);
      RestoreCsr64(0x180, s.satp);
      before := items;
      CreateCsrrsX1();
      AfterSnoc(before, RestoreX1, start);
    }

    /** Everything that does not depend on the registers yet. */
    method RestoreCsrs(s: Saved)
      requires Running() && SavedOk(s, Now().value.csrs.misaC) && s.priv < 4 && NoneMissing(missing, s)
      requires |Now().value.fpRegs| == 32 && codePos <= 4 && dataPos == DATA_START
      modifies this`codePos, this`dataPos, this`items, rom
      ensures Running() && codePos <= 432 && dataPos <= DATA_START + 194
      ensures CsrsRestored(old(Now()).value.csrs, Now().value.csrs, s, missing)
      ensures FpRegsAfter(old(Now()).value, Now().value, s) && Now().value.io == old(Now()).value.io
    {
      hide After, Placed, CodeEnd, DataEnd, ItemOk, SavedOk, CsrsWrite, MachineDone, FpRegsAfter, MachineCsrs;
      ghost var c0 := Now().value;
      RestoreDebug(s);
      ghost var c1 := Now().value;
      RestoreFpu(s);
      ghost var c2 := Now().value;
      ghost var c := Now().value.(csrs := Now().value.csrs.(machine := c0.csrs.machine));
      RestoreMachine(s, c);
      ghost var m := Now().value.csrs.machine;
      RestoreTraps(s);
      c := Now().value.(csrs := Now().value.csrs.(machine := c0.csrs.machine));
      MachineCsrsIs(0x344);
      RestoreMachine64(0x344, s, c, MachineCsrs() - {0x344, 0xb00, 0xb02});
      FpRegsSame(c0, c1, c2, Now().value, s);
      assert MachineCsrs() - {0x344, 0xb00, 0xb02} + {0x344} == MachineCsrs() - {0xb00, 0xb02};
    }

    /** The registers, and satp at the very end. */
    method RestoreRest(s: Saved, clintBase: nat, timecmp: nat, rtc: nat, ghost c: Cpu)
      requires Progress(c, s, MachineCsrs() - {0xb00, 0xb02}) && SavedOk(s, Now().value.csrs.misaC) && 0x180 !in missing
      requires timecmp < DWORD && rtc < DWORD && DeviceAddress(clintBase + 0x4000) && DeviceAddress(clintBase + 0xbff8)
      requires codePos <= 432 && dataPos <= DATA_START + 194
      modifies this`codePos, this`dataPos, this`items, rom
      ensures Valid() && codePos <= 553 && dataPos <= DATA_START + 270 && Now().Some?
      ensures var c' := Now().value;
              && c'.csrs == c.csrs.(satp := s.satp, dscratch := s.regs[1], machine := c'.csrs.machine) && c'.priv == 3
              && MachineDone(c.csrs.machine, c'.csrs.machine, c.csrs.addrLen, s, missing, MachineCsrs())
              && c'.fpRegs == c.fpRegs && c'.io == c.io + [(clintBase + 0x4000, timecmp), (clintBase + 0xbff8, rtc)]
              && |c'.regs| == 32 && |s.regs| == 32 && forall i :: 1 <= i < 32 ==> c'.regs[i] == s.regs[i]
    {
      hide After, Placed, CodeEnd, DataEnd, ItemOk, SavedOk, CsrsWrite, DeviceAddress, MachineDone, MachineCsrs;
      SavedRegs(s, Now().value.csrs.misaC);
      RestoreRegs(s);
      RestoreTimers(s, clintBase, timecmp, rtc, c);
      RestoreLast(s);
    }
  }

  /** All but satp are as saved; the hart can still be left with dret. */
  ghost predicate CsrsRestored(x: Csrs, x': Csrs, s: Saved, missing: seq<nat>) {
    && MachineDone(x.machine, x'.machine, x.addrLen, s, missing, MachineCsrs() - {0xb00, 0xb02}) && FpStatusAfter(x, x', s, missing)
    && x'.debugMode == x.debugMode && x'.misaC == x.misaC && x'.satp == x.satp && x'.addrLen == x.addrLen
    && x'.dpc == s.pc && x'.dcsr % 4 == s.priv && x'.dcsr / 512 % 4 == 3
    && x'.mscratch == s.mscratch && x'.mepc == s.mepc && x'.mcause == s.mcause && x'.mtval == s.mtval
    && x'.sscratch == s.sscratch && x'.sepc == s.sepc && x'.scause == s.scause && x'.stval == s.stval
  }

  lemma DcsrPriv(dcsr: nat, priv: nat)
    requires priv < 4
    ensures Wrap64(Signed12(0x600 + priv)) == 0x600 + priv && DcsrBits(dcsr, 0x600 + priv) % 4 == priv
    ensures DcsrBits(dcsr, 0x600 + priv) / 512 % 4 == 3
  {
    var a, b, k := dcsr / 2048, (0x600 + priv) / 512 % 4, dcsr / 4 % 128;
    assert (0x600 + priv) % 4 == priv;
    FourTimes(DcsrBits(dcsr, 0x600 + priv), a, b, k, priv);
  }

  lemma FourTimes(v: nat, a: nat, b: nat, k: nat, low: nat)
    requires low < 4 && v == a * 2048 + b * 512 + k * 4 + low
    ensures v % 4 == low && (b < 4 && k < 128 ==> v / 512 % 4 == b)
  {
    assert v == 4 * (a * 512 + b * 128 + k) + low;
    assert b < 4 && k < 128 ==> v / 512 == 4 * a + b;
  }

  lemma SavedFpu(s: Saved, misaC: bool)
    requires SavedOk(s, misaC)
    ensures |s.regs| == 32 && |s.fpRegs| == 32 && s.mstatus < DWORD && s.mstatus / 0x2000 % 4 == s.fs
    ensures s.fflags < 32 && s.frm < 8 && forall i :: 0 <= i < 32 ==> s.regs[i] < DWORD && s.fpRegs[i] < DWORD
  {
  }

  lemma MstatusIs(x: Csrs, val: nat)
    ensures CsrsWrite(x, 0x300, val) == Some(MachineWrite(x, 0x300, val).(fs := val / 0x2000 % 4))
  {
    hide Legal, MachineWrite;
  }

  lemma MstatusDone(x: Csrs, x': Csrs, s: Saved, missing: seq<nat>)
    requires x'.machine == if 0x300 in missing then x.machine else MachineWrite(x, 0x300, s.mstatus).machine
    ensures MachineDone(x.machine, x'.machine, x.addrLen, s, missing, {0x300})
  {
    hide Legal;
  }

  /** fflags, frm and the two together. */
  function FcsrWrite(x: Csrs, csrn: nat, val: nat): Csrs {
    if csrn == 0x001 then x.(fs := 3, fflags := val % 32)
    else if csrn == 0x002 then x.(fs := 3, frm := val % 8)
    else x.(fs := 3, fflags := val % 32, frm := val / 32 % 8)
  }

  lemma FcsrWriteIs(x: Csrs, csrn: nat, val: nat)
    requires x.fs != 0 && csrn in {0x001, 0x002, 0x003}
    ensures CsrsWrite(x, csrn, val) == Some(FcsrWrite(x, csrn, val))
  {
  }

  lemma FcsrIs(fflags: nat, frm: nat)
    requires fflags < 32 && frm < 8
    ensures Wrap64(Signed12(fflags)) == fflags && Wrap64(Signed12(frm)) == frm
    ensures Wrap64(Signed12(fflags + 32 * frm)) == fflags + 32 * frm
    ensures (fflags + 32 * frm) % 32 == fflags && (fflags + 32 * frm) / 32 % 8 == frm
  {
  }

  lemma FpRegsMixed(start: Cpu, c: Cpu, s: Saved)
    requires s.fs != 0 && |c.fpRegs| == 32 == |s.fpRegs| && |s.regs| == 32
    requires forall i :: 0 <= i < 32 ==> c.fpRegs[i] == s.fpRegs[i] % WORD + s.regs[i] / WORD * WORD
    ensures FpRegsAfter(start, c, s)
  {
    forall i | 0 <= i < 32
      ensures c.fpRegs[i] == s.fpRegs[i] <==> s.fpRegs[i] / WORD == s.regs[i] / WORD
    {
      HalvesCoincide(s.fpRegs[i], s.regs[i] / WORD);
    }
  }

  lemma HalvesCoincide(v: nat, hi: nat)
    ensures v % WORD + hi * WORD == v <==> v / WORD == hi
  {
  }

  lemma FpRegsKept(start: Cpu, c: Cpu, s: Saved)
    requires s.fs == 0 && |c.fpRegs| == 32 == |s.fpRegs| && |s.regs| == 32 && c.fpRegs == start.fpRegs
    ensures FpRegsAfter(start, c, s)
  {
  }

  lemma FpRegsSame(start: Cpu, start': Cpu, c: Cpu, c': Cpu, s: Saved)
    requires FpRegsAfter(start', c, s) && start'.fpRegs == start.fpRegs && c'.fpRegs == c.fpRegs
    ensures FpRegsAfter(start, c', s)
  {
  }

  /**
   * create_boot_rom. Whatever the saved state, the code and the data fit, and running the words from
   * a reset in debug mode restores it. The ROM does not depend on start, which is any such reset.
   */
  method CreateBootRom(s: Saved, missing: seq<nat>, ncpus: nat, clintBase: nat, timecmp: nat, rtc: nat, ghost start: Cpu)
    returns (supported: bool, tooSmall: bool, rom: array<nat>, ghost n: nat)
    requires AtReset(start) && (ncpus == 1 ==> start.csrs.mhartid == 0)
    requires SavedOk(s, start.csrs.misaC) && s.priv < 4 && NoneMissing(missing, s)
    requires timecmp < DWORD && rtc < DWORD && DeviceAddress(clintBase + 0x4000) && DeviceAddress(clintBase + 0xbff8)
    ensures supported == (s.priv != 2) && !tooSmall
    ensures supported ==> Run(rom[..], start, n).Some? && Restored(Run(rom[..], start, n).value, s)
    ensures supported ==> RestoredBeyond(start, Run(rom[..], start, n).value, s, missing)
    ensures supported ==>
              Run(rom[..], start, n).value.io == start.io + [(clintBase + 0x4000, timecmp), (clintBase + 0xbff8, rtc)]
    ensures supported && ncpus == 1 ==> HangsOthers(rom[..])
  {
    hide After, Placed, CodeEnd, DataEnd, ItemOk, SavedOk, DeviceAddress, CsrsRestored, FpRegsAfter, Restored, RestoredBeyond,
      Returned, NoneMissing, MachineDone, MachineCsrs, Run;
    assert NoneMissing(missing, s) && 0x180 !in missing by {
      NeedsSatp(missing, s);
    }
    var b := new RomBuilder(missing, start);
    rom, tooSmall, supported, n := b.rom, false, s.priv != 2, 0;
    if ncpus == 1 {
      ghost var none := b.items;
      b.CreateHangNonzeroHart();
      AfterSnoc(none, HangNonzeroHart, start);
    }
    if !supported {
      return;
    }
    ghost var c0 := b.Now().value;
    b.RestoreCsrs(s);
    ghost var c1 := b.Now().value;
    StillDebug(c0.csrs, c1.csrs, s, missing);
    assert b.Progress(c1.(csrs := c1.csrs.(machine := c0.csrs.machine)), s, MachineCsrs() - {0xb00, 0xb02});
    b.RestoreRest(s, clintBase, timecmp, rtc, c1.(csrs := c1.csrs.(machine := c0.csrs.machine)));
    ghost var before, c := rom[..], b.Now().value;
    b.Emit([0x7b200073], []);
    assert rom[..] == before[CodeEnd(b.items) := 0x7b200073] by {
      LastWord(before, rom[..], CodeEnd(b.items));
    }
    tooSmall := ROM_WORDS <= b.dataPos || DATA_START <= b.codePos;
    n := RunAll(before, rom[..], b.items, start, c);
    RestoredAfter(start, c0, c1, c, s, missing);
    ReturnedIo(c);
    if ncpus == 1 {
      GuardStays(before, rom[..], b.items);
    }
  }

  lemma GuardStays(before: seq<nat>, rom: seq<nat>, items: seq<Item>)
    requires Placed(before, items) && |before| == ROM_WORDS && CodeEnd(items) < DATA_START
    requires |items| > 0 && items[0] == HangNonzeroHart && rom == before[CodeEnd(items) := 0x7b200073]
    ensures HangsOthers(rom)
  {
    PlacedKept(before, rom, items);
    FirstItemAt(rom, items);
    hide Placed, CodeEnd, DataEnd;
  }

  lemma StillDebug(x: Csrs, x': Csrs, s: Saved, missing: seq<nat>)
    requires CsrsRestored(x, x', s, missing)
    ensures x'.debugMode == x.debugMode && x'.misaC == x.misaC && x'.addrLen == x.addrLen
    ensures MachineDone(x.machine, x'.machine, x.addrLen, s, missing, MachineCsrs() - {0xb00, 0xb02})
  {
    hide MachineDone;
  }

  lemma NeedsSatp(missing: seq<nat>, s: Saved)
    requires NoneMissing(missing, s)
    ensures 0x180 !in missing
  {
  }

  lemma SavedRegs(s: Saved, misaC: bool)
    requires SavedOk(s, misaC)
    ensures |s.regs| == 32 && forall i :: 0 <= i < 32 ==> s.regs[i] < DWORD
  {
  }

  lemma LastWord(before: seq<nat>, rom: seq<nat>, c: nat)
    requires |rom| == |before| && c < |rom| && rom[c..c + 1] == [0x7b200073]
    requires forall i :: 0 <= i < |rom| && i != c ==> rom[i] == before[i]
    ensures rom == before[c := 0x7b200073]
  {
    assert rom[c] == rom[c..c + 1][0];
  }

  /** The recovery items, then dret. */
  lemma RunAll(before: seq<nat>, rom: seq<nat>, items: seq<Item>, start: Cpu, c: Cpu) returns (n: nat)
    requires AtReset(start) && Placed(before, items) && |before| == ROM_WORDS && CodeEnd(items) < DATA_START
    requires forall i :: 0 <= i < |items| ==> ItemOk(items[i])
    requires rom == before[CodeEnd(items) := 0x7b200073]
    requires After(items, start) == Some(c) && c.priv == 3 && c.csrs.debugMode
    ensures Run(rom, start, n) == Some(Returned(c))
  {
    hide After, Placed, CodeEnd, DataEnd, ItemOk, Run;
    PlacedKept(before, rom, items);
    var m := RunItems(rom, items, start);
    RunDret(rom, start, m, c, CodeEnd(items));
    n := m + 1;
  }

  lemma ReturnedIo(c: Cpu)
    ensures Returned(c).io == c.io
  {
  }

  /** What the batches did, seen after dret. */
  lemma RestoredAfter(start: Cpu, c0: Cpu, c1: Cpu, c: Cpu, s: Saved, missing: seq<nat>)
    requires c0.csrs == start.csrs && c0.fpRegs == start.fpRegs
    requires CsrsRestored(c0.csrs, c1.csrs, s, missing) && FpRegsAfter(c0, c1, s)
    requires c.csrs == c1.csrs.(satp := s.satp, dscratch := c.csrs.dscratch, machine := c.csrs.machine) && c.fpRegs == c1.fpRegs
    requires MachineDone(start.csrs.machine, c.csrs.machine, start.csrs.addrLen, s, missing, MachineCsrs())
    requires |c.regs| == 32 && |s.regs| == 32 && (forall i :: 1 <= i < 32 ==> c.regs[i] == s.regs[i])
    ensures Restored(Returned(c), s) && RestoredBeyond(start, Returned(c), s, missing)
  {
    hide MachineDone;
  }

  /** A state with the floating-point unit on, and 2^32 in f1. */
  function HighHalfOnly(): Saved {
    var zeros := seq(32, _ => 0);
    Saved(0, 3, zeros, zeros[1 := WORD], 0x2000, 1, 0, 0, 0, 0, 0, 0, 0, 0, 0, 0, 0, _ => 0)
  }

  lemma HighHalfOnlyOk(misaC: bool)
    ensures var s := HighHalfOnly();
            && SavedOk(s, misaC) && NoneMissing([], s) && s.priv == 3 && s.fs == 1 && 0 < DWORD
            && |s.fpRegs| == 32 && s.fpRegs[1] == WORD && |s.regs| == 32 && s.regs[1] == 0
            && s.fpRegs[1] % WORD + s.regs[1] / WORD * WORD == 0
  {
    hide InsnAligned, CanonicalS49, CauseBits, SatpMode, SatpBits;
    ZeroForms(misaC);
  }

  lemma ZeroForms(misaC: bool)
    ensures InsnAligned(0, misaC) == 0 && CanonicalS49(0) == 0 && CauseBits(0, 256) == 0 && CauseBits(0, 32) == 0
    ensures SatpMode(0) && SatpBits(0) == 0
  {
    hide SatpMode, SatpBits;
    BareSatp(0);
  }

  lemma BareSatp(v: nat)
    requires v < 0x1000_0000_0000
    ensures SatpMode(v) && SatpBits(v) == v
  {
    assert v / 0x1000_0000_0000_0000 == 0;
  }

  /** Its f1 is lost. */
  method FpRegisterLost(clintBase: nat, ghost start: Cpu) returns (rom: array<nat>, ghost n: nat)
    requires AtReset(start) && start.csrs.mhartid == 0
    requires DeviceAddress(clintBase + 0x4000) && DeviceAddress(clintBase + 0xbff8)
    ensures var c := Run(rom[..], start, n);
            c.Some? && |c.value.fpRegs| == 32 && c.value.fpRegs[1] == 0 && HighHalfOnly().fpRegs[1] == WORD
  {
    hide *;
    var s := HighHalfOnly();
    HighHalfOnlyOk(start.csrs.misaC);
    var supported, tooSmall;
    supported, tooSmall, rom, n := CreateBootRom(s, [], 1, clintBase, 0, 0, start);
    FirstRegister(start, Run(rom[..], start, n).value, s);
  }

  lemma FirstRegister(start: Cpu, c: Cpu, s: Saved)
    requires RestoredBeyond(start, c, s, []) && s.fs != 0
    ensures |c.fpRegs| == 32 == |s.fpRegs| && |s.regs| == 32 && c.fpRegs[1] == s.fpRegs[1] % WORD + s.regs[1] / WORD * WORD
  {
    hide MachineDone;
  }
}
