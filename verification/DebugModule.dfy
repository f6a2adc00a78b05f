/**
 * The debug module and the debug ROM: a debugger and halted harts that take turns, one access at a
 * time, and pass abstract commands through the GO flag and the HALTED store.
 */
module DebugModule {
  import opened Basics

  const HARTS: nat := 1024
  const DSCRATCH: nat := 0x7b2

  /** cmderr_t */
  const CMDERR_NONE: nat := 0
  const CMDERR_BUSY: nat := 1
  const CMDERR_NOTSUP: nat := 2
  const CMDERR_EXCEPTION: nat := 3
  const CMDERR_HALTRESUME: nat := 4

  // ---- abstract commands -------------------------------------------------------------------

  /** An instruction of debug_abstract. Loads and stores access data0, and data1 when 64 bits wide. */
  datatype Insn =
    | CsrwS0(csr: nat) | CsrrS0(csr: nat)
    | LoadReg(reg: nat, size: nat) | StoreReg(reg: nat, size: nat)
    | LoadFpr(reg: nat, size: nat) | StoreFpr(reg: nat, size: nat)
    | JumpToProgbuf | Ebreak

  const S0: nat := 8

  /** The fields of an access-register command. */
  datatype Command = Command(cmdtype: nat, size: nat, postexec: bool, transfer: bool, write: bool, regno: nat)

  datatype Compiled = Code(insns: seq<Insn>) | Custom(number: nat) | NotSupported

  /** The transfer part of an access-register command. */
  function Transfer(c: Command, progbufsize: nat): Compiled {
    if c.regno < 0x1000 && progbufsize < 2 then
      if c.size != 2 && c.size != 3 then NotSupported
      else if c.write then Code([CsrwS0(DSCRATCH), LoadReg(S0, c.size), CsrwS0(c.regno), CsrrS0(DSCRATCH)])
      else Code([CsrwS0(DSCRATCH), CsrrS0(c.regno), StoreReg(S0, c.size), CsrrS0(DSCRATCH)])
    else if 0x1000 <= c.regno < 0x1020 then
      if c.size != 2 && c.size != 3 then NotSupported
      else if c.write then Code([LoadReg(c.regno - 0x1000, c.size)])
      else Code([StoreReg(c.regno - 0x1000, c.size)])
    else if 0x1020 <= c.regno < 0x1040 then
      if c.size != 2 && c.size != 3 then NotSupported
      else if c.write then Code([LoadFpr(c.regno - 0x1020, c.size)])
      else Code([StoreFpr(c.regno - 0x1020, c.size)])
    else if c.regno >= 0xc000 && c.regno % 2 == 1 then Custom(c.regno - 0xc000)
    else NotSupported
  }

  /** What perform_abstract_command writes to debug_abstract. */
  function Compile(c: Command, progbufsize: nat): Compiled {
    if c.cmdtype != 0 then NotSupported
    else
      var t := if c.transfer then Transfer(c, progbufsize) else Code([]);
      if t.Code? then Code(t.insns + [if c.postexec then JumpToProgbuf else Ebreak]) else t
  }

  // ---- what the code of a command does ---------------------------------------------------------

  /** Integer and floating-point registers, CSRs and the two data words of the module. */
  datatype HartState = HartState(regs: seq<nat>, fpRegs: seq<nat>, csrs: map<nat, nat>, data: seq<nat>)

  predicate StateOk(h: HartState) {
    |h.regs| == 32 && |h.fpRegs| == 32 && |h.data| == 2 && h.regs[0] == 0
  }

  function Signed(v: nat, bits: nat): int {
    if v < bits / 2 then v else v - bits
  }

  /** What a load gets: 32 bits are sign-extended. */
  function Loaded(data: seq<nat>, size: nat): (v: nat)
    requires |data| == 2
    ensures size == 3 && data[0] < WORD ==> v % WORD == data[0] && v / WORD == data[1]
    ensures size != 3 && data[0] < WORD ==> v < DWORD && Signed(v, DWORD) == Signed(data[0], WORD)
  {
    if size == 3 then data[0] + data[1] * WORD
    else if data[0] < 0x8000_0000 then data[0] else data[0] + 0xffff_ffff_0000_0000
  }

  function Stored(data: seq<nat>, size: nat, val: nat): (r: seq<nat>)
    requires |data| == 2
    ensures |r| == 2 && r[0] == val % WORD && (size == 3 ==> r[0] + r[1] * WORD == val) && (size != 3 ==> r[1] == data[1])
  {
    if size == 3 then [val % WORD, val / WORD] else data[0 := val % WORD]
  }

  /** A single-precision number is held with all higher bits set. */
  function FpLoaded(data: seq<nat>, size: nat): (v: nat)
    requires |data| == 2
    ensures data[0] < WORD ==> v % WORD == data[0] && v / WORD == if size == 3 then data[1] else WORD - 1
  {
    if size == 3 then data[0] + data[1] * WORD else data[0] + 0xffff_ffff_0000_0000
  }

  function SetReg(h: HartState, reg: nat, val: nat): (r: HartState)
    requires StateOk(h) && reg < 32
    ensures StateOk(r)
  {
    if reg == 0 then h else h.(regs := h.regs[reg := val])
  }

  function CsrOf(h: HartState, csr: nat): nat {
    if csr in h.csrs then h.csrs[csr] else 0
  }

  /** CSRs are taken to hold what was written to them. */
  function Exec(h: HartState, i: Insn): (r: HartState)
    requires StateOk(h)
    ensures StateOk(r)
  {
    match i
    case CsrwS0(csr) => h.(csrs := h.csrs[csr := h.regs[S0]])
    case CsrrS0(csr) => SetReg(h, S0, CsrOf(h, csr))
    case LoadReg(reg, size) => if reg < 32 then SetReg(h, reg, Loaded(h.data, size)) else h
    case StoreReg(reg, size) => if reg < 32 then h.(data := Stored(h.data, size, h.regs[reg])) else h
    case LoadFpr(reg, size) => if reg < 32 then h.(fpRegs := h.fpRegs[reg := FpLoaded(h.data, size)]) else h
    case StoreFpr(reg, size) => if reg < 32 then h.(data := Stored(h.data, size, h.fpRegs[reg])) else h
    case _ => h
  }

  function ExecAll(h: HartState, insns: seq<Insn>): (r: HartState)
    requires StateOk(h)
    ensures StateOk(r)
    decreases |insns|
  {
    if |insns| == 0 then h else ExecAll(Exec(h, insns[0]), insns[1..])
  }

  lemma ExecCons(h: HartState, insns: seq<Insn>)
    requires StateOk(h) && |insns| > 0
    ensures ExecAll(h, insns) == ExecAll(Exec(h, insns[0]), insns[1..])
  {
  }

  lemma ExecNone(h: HartState)
    requires StateOk(h)
    ensures ExecAll(h, []) == h
  {
  }

  lemma ExecFive(h: HartState, a: Insn, b: Insn, c: Insn, d: Insn, e: Insn)
    requires StateOk(h)
    ensures ExecAll(h, [a, b, c, d, e]) == Exec(Exec(Exec(Exec(Exec(h, a), b), c), d), e)
  {
    hide Exec, ExecAll, StateOk;
    var h1 := Exec(h, a);
    var h2 := Exec(h1, b);
    var h3 := Exec(h2, c);
    var h4 := Exec(h3, d);
    ExecCons(h, [a, b, c, d, e]);
    assert [a, b, c, d, e][1..] == [b, c, d, e];
    ExecCons(h1, [b, c, d, e]);
    assert [b, c, d, e][1..] == [c, d, e];
    ExecCons(h2, [c, d, e]);
    assert [c, d, e][1..] == [d, e];
    ExecCons(h3, [d, e]);
    assert [d, e][1..] == [e];
    ExecCons(h4, [e]);
    assert [e][1..] == [];
    ExecNone(Exec(h4, e));
  }

  /**
   * Writing a CSR by an abstract command puts the data there and gives s0 back, unless the CSR is
   * dscratch, which the command itself uses: then s0 ends up with the data too.
   */
  lemma CsrWriteCommand(h: HartState, c: Command, progbufsize: nat)
    requires progbufsize < 2 && StateOk(h) && c.cmdtype == 0 && c.transfer && c.write && c.regno < 0x1000 && (c.size == 2 || c.size == 3)
    ensures Compile(c, progbufsize).Code?
    ensures var h' := ExecAll(h, Compile(c, progbufsize).insns);
            var val := Loaded(h.data, c.size);
            && CsrOf(h', c.regno) == val && h'.data == h.data && h'.fpRegs == h.fpRegs
            && (forall k :: k != DSCRATCH && k != c.regno ==> CsrOf(h', k) == CsrOf(h, k))
            && (forall r :: 0 <= r < 32 && r != S0 ==> h'.regs[r] == h.regs[r])
            && (h'.regs[S0] == h.regs[S0] <==> c.regno != DSCRATCH || val == h.regs[S0])
  {
    var last := if c.postexec then JumpToProgbuf else Ebreak;
    var a, b, d, e := CsrwS0(DSCRATCH), LoadReg(S0, c.size), CsrwS0(c.regno), CsrrS0(DSCRATCH);
    assert Compile(c, progbufsize).insns == [a, b, d, e, last];
    hide Compile, ExecAll, Loaded;
    ExecFive(h, a, b, d, e, last);
  }

  /** Reading one leaves everything but the data as it was, with the same exception. */
  lemma CsrReadCommand(h: HartState, c: Command, progbufsize: nat)
    requires progbufsize < 2 && StateOk(h) && c.cmdtype == 0 && c.transfer && !c.write && c.regno < 0x1000 && (c.size == 2 || c.size == 3)
    ensures Compile(c, progbufsize).Code?
    ensures var h' := ExecAll(h, Compile(c, progbufsize).insns);
            && h'.regs == h.regs && h'.fpRegs == h.fpRegs
            && (h'.data == Stored(h.data, c.size, if c.regno == DSCRATCH then h.regs[S0] else CsrOf(h, c.regno)))
            && (forall k :: k != DSCRATCH ==> CsrOf(h', k) == CsrOf(h, k))
  {
    var last := if c.postexec then JumpToProgbuf else Ebreak;
    var a, b, d, e := CsrwS0(DSCRATCH), CsrrS0(c.regno), StoreReg(S0, c.size), CsrrS0(DSCRATCH);
    assert Compile(c, progbufsize).insns == [a, b, d, e, last];
    hide Compile, ExecAll, Stored;
    ExecFive(h, a, b, d, e, last);
    assert h.regs[S0 := CsrOf(Exec(h, a), c.regno)][S0 := h.regs[S0]] == h.regs;
  }

  /** Register commands move data between a register and the data words, and x0 stays zero. */
  lemma RegisterCommand(h: HartState, c: Command, progbufsize: nat)
    requires StateOk(h) && c.cmdtype == 0 && c.transfer && 0x1000 <= c.regno < 0x1020 && (c.size == 2 || c.size == 3)
    ensures Compile(c, progbufsize).Code?
    ensures var r := c.regno - 0x1000;
            var h' := ExecAll(h, Compile(c, progbufsize).insns);
            && h'.csrs == h.csrs && h'.fpRegs == h.fpRegs
            && (if c.write then
                  h'.data == h.data && h'.regs == (if r == 0 then h.regs else h.regs[r := Loaded(h.data, c.size)])
                else h'.regs == h.regs && h'.data == Stored(h.data, c.size, if r == 0 then 0 else h.regs[r]))
  {
    var last := if c.postexec then JumpToProgbuf else Ebreak;
    var a := if c.write then LoadReg(c.regno - 0x1000, c.size) else StoreReg(c.regno - 0x1000, c.size);
    assert Compile(c, progbufsize).insns == [a, last];
    hide Compile, ExecAll, Loaded, Stored;
    ExecCons(h, [a, last]);
    assert [a, last][1..] == [last];
    ExecCons(Exec(h, a), [last]);
    assert [last][1..] == [];
    ExecNone(Exec(Exec(h, a), last));
  }

  /** Commands for floating-point registers do the same with those. */
  lemma FpRegisterCommand(h: HartState, c: Command, progbufsize: nat)
    requires StateOk(h) && c.cmdtype == 0 && c.transfer && 0x1020 <= c.regno < 0x1040 && (c.size == 2 || c.size == 3)
    ensures Compile(c, progbufsize).Code?
    ensures var r := c.regno - 0x1020;
            var h' := ExecAll(h, Compile(c, progbufsize).insns);
            && h'.csrs == h.csrs && h'.regs == h.regs
            && (if c.write then h'.data == h.data && h'.fpRegs == h.fpRegs[r := FpLoaded(h.data, c.size)]
                else h'.fpRegs == h.fpRegs && h'.data == Stored(h.data, c.size, h.fpRegs[r]))
  {
    var last := if c.postexec then JumpToProgbuf else Ebreak;
    var a := if c.write then LoadFpr(c.regno - 0x1020, c.size) else StoreFpr(c.regno - 0x1020, c.size);
    assert Compile(c, progbufsize).insns == [a, last];
    hide Compile, ExecAll, FpLoaded, Stored;
    ExecCons(h, [a, last]);
    assert [a, last][1..] == [last];
    ExecCons(Exec(h, a), [last]);
    assert [last][1..] == [];
    ExecNone(Exec(Exec(h, a), last));
  }

  /** A command without a transfer only ends, or goes on in the program buffer. */
  lemma PlainCommand(h: HartState, c: Command, progbufsize: nat)
    requires StateOk(h) && c.cmdtype == 0 && !c.transfer
    ensures Compile(c, progbufsize).Code? && ExecAll(h, Compile(c, progbufsize).insns) == h
  {
    var last := if c.postexec then JumpToProgbuf else Ebreak;
    assert Compile(c, progbufsize).insns == [last];
    hide Compile, ExecAll;
    ExecCons(h, [last]);
    assert [last][1..] == [];
    ExecNone(Exec(h, last));
  }

  /** The last instruction leaves the command: to the program buffer exactly when that was asked for. */
  lemma LastInstruction(c: Command, progbufsize: nat)
    requires Compile(c, progbufsize).Code?
    ensures var insns := Compile(c, progbufsize).insns;
            |insns| > 0 && insns[|insns| - 1] == if c.postexec then JumpToProgbuf else Ebreak
  {
    hide Transfer;
  }

  /** Which commands are supported, and which are for the module's own custom registers. */
  lemma Supported(c: Command, progbufsize: nat)
    ensures Compile(c, progbufsize) == NotSupported <==>
            c.cmdtype != 0 ||
            (c.transfer && !(c.regno >= 0xc000 && c.regno % 2 == 1) &&
             !((c.size == 2 || c.size == 3) && (0x1000 <= c.regno < 0x1040 || (c.regno < 0x1000 && progbufsize < 2))))
    ensures Compile(c, progbufsize).Custom? <==> c.cmdtype == 0 && c.transfer && c.regno >= 0xc000 && c.regno % 2 == 1
    ensures Compile(c, progbufsize).Custom? ==> Compile(c, progbufsize).number == c.regno - 0xc000
  {
  }

  // ---- the protocol ---------------------------------------------------------------------------------

  /** debug_abstract_size */
  const ABSTRACT_SIZE: nat := 5

  lemma CompiledFits(c: Command, progbufsize: nat)
    ensures Compile(c, progbufsize).Code? ==> 0 < |Compile(c, progbufsize).insns| <= ABSTRACT_SIZE
    ensures |Partial(c, progbufsize)| <= ABSTRACT_SIZE
  {
  }

  /** What is already written when a CSR access turns out to have a size that is not supported. */
  function Partial(c: Command, progbufsize: nat): seq<Insn> {
    if c.cmdtype == 0 && c.transfer && c.regno < 0x1000 && progbufsize < 2
    then [CsrwS0(DSCRATCH)] + (if c.write then [] else [CsrrS0(c.regno)])
    else []
  }

  /** That is what does not depend on the size. */
  lemma PartialIs(c: Command, progbufsize: nat)
    ensures if c.cmdtype == 0 && c.transfer && c.regno < 0x1000 && progbufsize < 2 then
              var n, a, b := |Partial(c, progbufsize)|, Compile(c.(size := 2), progbufsize), Compile(c.(size := 3), progbufsize);
              && a.Code? && b.Code? && n < |a.insns| && n < |b.insns|
              && Partial(c, progbufsize) == a.insns[..n] == b.insns[..n] && a.insns[n] != b.insns[n]
            else Partial(c, progbufsize) == []
  {
  }

  function Overwritten(code: seq<Insn>, insns: seq<Insn>): (r: seq<Insn>)
    requires |insns| <= |code|
    ensures |r| == |code| && insns <= r
  {
    insns + code[|insns|..]
  }

  /** Bit b of a field of three bits. */
  predicate BitOf(n: nat, b: nat) {
    if b == 0 then n % 2 == 1 else if b == 1 then n / 2 % 2 == 1 else n / 4 % 2 == 1
  }

  function FromBits(b0: bool, b1: bool, b2: bool): (n: nat)
    ensures n < 8 && BitOf(n, 0) == b0 && BitOf(n, 1) == b1 && BitOf(n, 2) == b2
    ensures n == 0 <==> !b0 && !b1 && !b2
  {
    (if b0 then 1 else 0) + (if b1 then 2 else 0) + (if b2 then 4 else 0)
  }

  /** `e & ~mask` */
  function ClearBits(e: nat, mask: nat): (r: nat)
    ensures r < 8 && forall b :: 0 <= b < 3 ==> (BitOf(r, b) <==> BitOf(e, b) && !BitOf(mask, b))
    ensures r == 0 <==> forall b :: 0 <= b < 3 && BitOf(e, b) ==> BitOf(mask, b)
  {
    FromBits(BitOf(e, 0) && !BitOf(mask, 0), BitOf(e, 1) && !BitOf(mask, 1), BitOf(e, 2) && !BitOf(mask, 2))
  }

  /**
   * Where a hart is in the debug ROM, by the access it makes next. AtHalted stores to HALTED,
   * AtGoFlag and AtResumeFlag load the flags, AtGoing, AtException and AtResuming make the stores
   * of those names; InCommand executes debug_abstract or the program buffer.
   */
  datatype Stage = Running | AtHalted | AtGoFlag | AtResumeFlag | AtGoing | InCommand | AtException | AtResuming

  predicate Commanded(s: Stage) {
    s == InCommand || s == AtException
  }

  /** A command is acted upon: no error is pending, none is running, and the hart is halted. */
  predicate Performs(cmderr: nat, busy: bool, halted: bool, c: Command) {
    cmderr == CMDERR_NONE && !busy && (c.cmdtype == 0 ==> halted)
  }

  /** The error after a command: one that is pending stays. */
  function Outcome(cmderr: nat, busy: bool, halted: bool, c: Command, progbufsize: nat): nat {
    if cmderr != CMDERR_NONE then cmderr
    else if busy then CMDERR_BUSY
    else if c.cmdtype == 0 && !halted then CMDERR_HALTRESUME
    else if Compile(c, progbufsize) == NotSupported then CMDERR_NOTSUP
    else CMDERR_NONE
  }

  /**
   * The values of cmderr: an error stays; 1 if a command is running, 4 if the hart is not halted, 2 if
   * the command is not supported, 0 otherwise. A command is acted upon exactly when none of the first
   * three cases applies (section 3.6 of RISC-V External Debug Support 0.13).
   */
  lemma OutcomeIs(cmderr: nat, busy: bool, halted: bool, c: Command, progbufsize: nat)
    ensures var r := Outcome(cmderr, busy, halted, c, progbufsize);
            && (cmderr != 0 ==> r == cmderr) && (cmderr == 0 && busy ==> r == 1)
            && (cmderr == 0 && !busy && c.cmdtype == 0 && !halted ==> r == 4)
            && (Performs(cmderr, busy, halted, c) ==> r == if Compile(c, progbufsize) == NotSupported then 2 else 0)
    ensures Performs(cmderr, busy, halted, c) <==> cmderr == 0 && !busy && (halted || c.cmdtype != 0)
    ensures CMDERR_EXCEPTION == 3
  {
  }

  class System {
    // the debug module
    var halted: seq<bool>
    var resumeack: seq<bool>
    var goFlag: seq<bool>
    var resumeFlag: seq<bool>
    var hartsel: nat
    var busy: bool
    var cmderr: nat
    var dmdata: seq<nat>
    var progbuf: seq<nat>
    var abstractCode: seq<Insn>
    var autoexecData: set<nat>
    var autoexecProgbuf: set<nat>
    var command: Command
    var customBase: int
    const progbufsize: nat
    // the harts, of which the first nprocs exist
    const nprocs: nat
    var haltRequest: seq<bool>
    var stage: seq<Stage>
    /** How often the selected hart passed GOING since the last command was started. */
    ghost var goings: nat
    /** The code of that command. */
    ghost var issued: seq<Insn>

    ghost predicate Shape()
      reads this
    {
      && |halted| == |resumeack| == |goFlag| == |resumeFlag| == |stage| == HARTS && hartsel < HARTS
      && |dmdata| == 2 && |progbuf| == progbufsize && |abstractCode| == ABSTRACT_SIZE && cmderr < 8
      && |haltRequest| == HARTS && nprocs <= HARTS
    }

    /**
     * What every step keeps. A command is with the selected hart, except that with a single hart the
     * selection may point to none while that hart finishes its command.
     */
    ghost predicate Valid()
      reads this
    {
      && Shape()
      && (forall k :: nprocs <= k < HARTS ==> !halted[k] && !goFlag[k] && stage[k] == Running)
      && (forall k :: 0 <= k < HARTS && k != hartsel ==>
            !goFlag[k] && stage[k] != AtGoing && (Commanded(stage[k]) ==> nprocs == 1 && busy && goings == 1))
      && (stage[hartsel] == AtGoing ==> goFlag[hartsel])
      && (goFlag[hartsel] ==> busy && goings == 0 && !Commanded(stage[hartsel]))
      && (busy && !goFlag[hartsel] ==> goings == 1)
      && (Commanded(stage[hartsel]) ==> busy)
      && (busy ==> issued <= abstractCode)
    }

    /** A command passed GOING again, or it is taken to be over while a hart is still at it. */
    ghost predicate Broken()
      reads this
      requires |stage| == HARTS
    {
      (busy && goings > 1) || (!busy && exists k :: 0 <= k < HARTS && Commanded(stage[k]))
    }

    /** Nothing a running command works on has changed. */
    twostate predicate Untouched()
      reads this
    {
      dmdata == old(dmdata) && progbuf == old(progbuf) && abstractCode == old(abstractCode) && goings == old(goings)
      && issued == old(issued) && busy == old(busy)
    }

    /** Nor was anything begun. */
    twostate predicate Idle()
      reads this
    {
      Untouched() && goFlag == old(goFlag) && customBase == old(customBase)
    }

    constructor (progbufsize: nat, nprocs: nat, hartsel: nat)
      requires hartsel < HARTS && nprocs <= HARTS
      ensures Valid() && !busy && cmderr == CMDERR_NONE && this.hartsel == hartsel
      ensures this.progbufsize == progbufsize && this.nprocs == nprocs
      ensures forall k :: 0 <= k < HARTS ==> stage[k] == Running && !goFlag[k] && !halted[k] && !resumeFlag[k] && !resumeack[k]
      ensures dmdata == [0, 0] && (forall i :: 0 <= i < progbufsize ==> progbuf[i] == 0) && customBase == 0
      ensures autoexecData == {} && autoexecProgbuf == {} && forall k :: 0 <= k < HARTS ==> !haltRequest[k]
    {
      this.progbufsize, this.nprocs, this.hartsel := progbufsize, nprocs, hartsel;
      haltRequest := seq(HARTS, _ => false);
      halted, resumeack := seq(HARTS, _ => false), seq(HARTS, _ => false);
      goFlag, resumeFlag := seq(HARTS, _ => false), seq(HARTS, _ => false);
      stage := seq(HARTS, _ => Running);
      busy, cmderr := false, CMDERR_NONE;
      dmdata, progbuf := [0, 0], seq(progbufsize, _ => 0);
      abstractCode := seq(ABSTRACT_SIZE, _ => Ebreak);
      autoexecData, autoexecProgbuf := {}, {};
      command, customBase := Command(0, 0, false, false, false, 0), 0;
      goings, issued := 0, [];
    }

    // ---- harts ------------------------------------------------------------------------------------

    /** Breakpoint, halt request or single step: the hart enters the debug ROM. */
    method HartHalts(k: nat)
      requires Shape() && k < nprocs && stage[k] == Running
      modifies this`stage
      ensures Shape() && (old(Valid()) ==> Valid())
      ensures stage == old(stage)[k := AtHalted]
    {
      stage := stage[k := AtHalted];
    }

    /** The store to HALTED. The module stops being busy only here, and then the command ran exactly once. */
    method StoreHalted(k: nat)
      requires Shape() && k < nprocs && stage[k] == AtHalted
      modifies this`stage, this`halted, this`busy
      ensures Shape() && (old(Valid()) ==> Valid())
      ensures halted == old(halted)[k := true] && stage == old(stage)[k := AtGoFlag]
      ensures busy == (old(busy) && (k != hartsel || goFlag[k]))
      ensures old(busy) && !busy ==> k == hartsel && (old(Valid()) ==> goings == 1)
    {
      halted := halted[k := true];
      if hartsel == k {
        if !goFlag[k] {
          busy := false;
        }
      }
      stage := stage[k := AtGoFlag];
    }

    method LoadGoFlag(k: nat)
      requires Shape() && k < nprocs && stage[k] == AtGoFlag
      modifies this`stage
      ensures Shape() && (old(Valid()) ==> Valid())
      ensures stage == old(stage)[k := if goFlag[k] then AtGoing else AtResumeFlag]
      ensures old(Valid()) && stage[k] == AtGoing ==> k == hartsel && busy && goings == 0
    {
      stage := stage[k := if goFlag[k] then AtGoing else AtResumeFlag];
    }

    method LoadResumeFlag(k: nat)
      requires Shape() && k < nprocs && stage[k] == AtResumeFlag
      modifies this`stage
      ensures Shape() && (old(Valid()) ==> Valid())
      ensures stage == old(stage)[k := if resumeFlag[k] then AtResuming else AtHalted]
    {
      stage := stage[k := if resumeFlag[k] then AtResuming else AtHalted];
    }

    /** The store to GOING: the first and only one of this command, and its code is still in place. */
    method StoreGoing(k: nat)
      requires Shape() && k < nprocs && stage[k] == AtGoing
      modifies this`stage, this`goFlag, this`goings
      ensures Shape() && (old(Valid()) ==> Valid())
      ensures old(Valid()) ==> old(goings) == 0 && goings == 1 && k == hartsel && busy && issued <= abstractCode
      ensures goFlag == old(goFlag)[hartsel := false] && stage == old(stage)[k := InCommand] && goings == old(goings) + 1
    {
      goFlag := goFlag[hartsel := false];
      goings := goings + 1;
      stage := stage[k := InCommand];
    }

    /** A store of the command or of the program buffer to the data words or the program buffer. */
    method CommandStore(k: nat, data: seq<nat>, buf: seq<nat>)
      requires Valid() && k < nprocs && stage[k] == InCommand && |data| == 2 && |buf| == progbufsize
      modifies this`dmdata, this`progbuf
      ensures Valid() && dmdata == data && progbuf == buf && busy
    {
      dmdata, progbuf := data, buf;
    }

    /** ebreak: back to the entry point. */
    method CommandEnds(k: nat)
      requires Shape() && k < nprocs && stage[k] == InCommand
      modifies this`stage
      ensures Shape() && (old(Valid()) ==> Valid() && busy && goings == 1)
      ensures stage == old(stage)[k := AtHalted]
    {
      stage := stage[k := AtHalted];
    }

    method CommandFaults(k: nat)
      requires Valid() && k < nprocs && stage[k] == InCommand
      modifies this`stage
      ensures Valid() && busy && goings == 1 && stage == old(stage)[k := AtException]
    {
      stage := stage[k := AtException];
    }

    method StoreException(k: nat)
      requires Valid() && k < nprocs && stage[k] == AtException
      modifies this`stage, this`cmderr
      ensures Valid() && stage == old(stage)[k := AtHalted]
      ensures cmderr == if old(cmderr) == CMDERR_NONE then CMDERR_EXCEPTION else old(cmderr)
    {
      if cmderr == CMDERR_NONE {
        cmderr := CMDERR_EXCEPTION;
      }
      stage := stage[k := AtHalted];
    }

    method StoreResuming(k: nat)
      requires Shape() && k < nprocs && stage[k] == AtResuming
      modifies this`stage, this`halted, this`resumeack, this`resumeFlag
      ensures Shape() && (old(Valid()) ==> Valid())
      ensures stage == old(stage)[k := Running]
      ensures halted == old(halted)[k := false] && resumeack == old(resumeack)[k := true]
      ensures resumeFlag == old(resumeFlag)[k := false]
    {
      halted, resumeack, resumeFlag := halted[k := false], resumeack[k := true], resumeFlag[k := false];
      stage := stage[k := Running];
    }

    // ---- debugger ---------------------------------------------------------------------------------

    /** perform_abstract_command: a command is started only when none is running and no error is pending. */
    method PerformAbstractCommand()
      requires Valid()
      modifies this`busy, this`cmderr, this`goFlag, this`abstractCode, this`dmdata, this`customBase, this`goings, this`issued
      ensures Valid()
      ensures cmderr == Outcome(old(cmderr), old(busy), halted[hartsel], command, progbufsize)
      ensures !Performs(old(cmderr), old(busy), halted[hartsel], command) ==> Idle()
      ensures Performs(old(cmderr), old(busy), halted[hartsel], command) ==> Performed(old(dmdata))
    {
      hide Compile, Partial;
      CompiledType(command, progbufsize);
      if cmderr != CMDERR_NONE {
        return;
      }
      if busy {
        cmderr := CMDERR_BUSY;
        return;
      }
      if command.cmdtype == 0 && !halted[hartsel] {
        cmderr := CMDERR_HALTRESUME;
        return;
      }
      Dispatch();
    }

    /** The state after a command that was acted upon with these data words. */
    twostate predicate Performed(data: seq<nat>)
      requires Shape() && old(Shape()) && |data| == 2
      reads this
    {
      match Compile(command, progbufsize)
      case Code(insns) =>
        && busy && goFlag == old(goFlag)[hartsel := true] && goings == 0 && issued == insns
        && insns <= abstractCode && abstractCode[|insns|..] == old(abstractCode)[|insns|..]
        && dmdata == data && customBase == old(customBase)
      case Custom(number) =>
        && !busy && goFlag == old(goFlag) && abstractCode == old(abstractCode)
        && (if command.write then dmdata == data && customBase == data[0] - number
            else dmdata == [(number + customBase) % WORD, 0] && customBase == old(customBase))
      case NotSupported =>
        && !busy && goFlag == old(goFlag) && dmdata == data && customBase == old(customBase)
        && Partial(command, progbufsize) <= abstractCode
        && abstractCode[|Partial(command, progbufsize)|..] == old(abstractCode)[|Partial(command, progbufsize)|..]
    }

    /** What an access does about the command: it is executed if that was asked for, with these data words. */
    twostate predicate Executed(auto: bool, data: seq<nat>)
      requires Shape() && old(Shape()) && |data| == 2
      reads this
    {
      && cmderr == (if auto then Outcome(old(cmderr), old(busy), halted[hartsel], command, progbufsize) else old(cmderr))
      && if auto && Performs(old(cmderr), old(busy), halted[hartsel], command) then Performed(data)
         else
           && dmdata == data && busy == old(busy) && goFlag == old(goFlag) && abstractCode == old(abstractCode)
           && customBase == old(customBase) && goings == old(goings) && issued == old(issued)
    }

    /** The command types, once the checks are passed. */
    method Dispatch()
      requires Valid() && Performs(cmderr, busy, halted[hartsel], command)
      modifies this`busy, this`cmderr, this`goFlag, this`abstractCode, this`dmdata, this`customBase, this`goings, this`issued
      ensures Valid() && Performed(old(dmdata))
      ensures cmderr == if Compile(command, progbufsize) == NotSupported then CMDERR_NOTSUP else CMDERR_NONE
    {
      hide Compile, Partial;
      CompiledFits(command, progbufsize);
      CompiledType(command, progbufsize);
      match Compile(command, progbufsize)
      case NotSupported =>
        abstractCode := Overwritten(abstractCode, Partial(command, progbufsize));
        cmderr := CMDERR_NOTSUP;
      case Custom(number) =>
        if command.write {
          customBase := dmdata[0] - number;
        } else {
          dmdata := [(number + customBase) % WORD, 0];
        }
      case Code(insns) =>
        abstractCode := Overwritten(abstractCode, insns);
        goFlag := goFlag[hartsel := true];
        busy := true;
        goings, issued := 0, insns;
    }

    /** The data registers, read: all ones while a command is running. */
    method ReadData(i: nat) returns (result: nat)
      requires Valid() && i < 2
      modifies this`busy, this`cmderr, this`goFlag, this`abstractCode, this`dmdata, this`customBase, this`goings, this`issued
      ensures Valid() && (old(busy) ==> Idle() && result == WORD - 1) && (!old(busy) ==> result == old(dmdata)[i])
      ensures !old(busy) ==> Executed(i in autoexecData, old(dmdata))
      ensures old(cmderr) != CMDERR_NONE ==> cmderr == old(cmderr)
      ensures old(busy) && old(cmderr) == CMDERR_NONE ==> cmderr == CMDERR_BUSY
    {
      result := dmdata[i];
      if busy {
        result := WORD - 1;
      }
      if busy && cmderr == CMDERR_NONE {
        cmderr := CMDERR_BUSY;
      }
      if !busy && i in autoexecData {
        PerformAbstractCommand();
      }
    }

    method WriteData(i: nat, value: nat)
      requires Valid() && i < 2
      modifies this`busy, this`cmderr, this`goFlag, this`abstractCode, this`dmdata, this`customBase, this`goings, this`issued
      ensures Valid() && (old(busy) ==> Idle())
      ensures !old(busy) ==> Executed(i in autoexecData, old(dmdata)[i := value])
      ensures old(cmderr) != CMDERR_NONE ==> cmderr == old(cmderr)
      ensures old(busy) && old(cmderr) == CMDERR_NONE ==> cmderr == CMDERR_BUSY
    {
      if !busy {
        dmdata := dmdata[i := value];
      }
      if busy && cmderr == CMDERR_NONE {
        cmderr := CMDERR_BUSY;
      }
      if !busy && i in autoexecData {
        PerformAbstractCommand();
      }
    }

    method ReadProgbuf(i: nat) returns (result: nat)
      requires Valid() && i < progbufsize
      modifies this`busy, this`cmderr, this`goFlag, this`abstractCode, this`dmdata, this`customBase, this`goings, this`issued
      ensures Valid() && (old(busy) ==> Idle() && cmderr == old(cmderr) && result == WORD - 1)
      ensures !old(busy) ==> result == old(progbuf)[i] && Executed(i in autoexecProgbuf, old(dmdata))
      ensures old(cmderr) != CMDERR_NONE ==> cmderr == old(cmderr)
    {
      result := progbuf[i];
      if busy {
        result := WORD - 1;
      }
      if !busy && i in autoexecProgbuf {
        PerformAbstractCommand();
      }
    }

    method WriteProgbuf(i: nat, value: nat)
      requires Valid() && i < progbufsize
      modifies this`busy, this`cmderr, this`goFlag, this`abstractCode, this`dmdata, this`customBase, this`goings, this`issued,
        this`progbuf
      ensures Valid() && (old(busy) ==> Idle() && cmderr == old(cmderr))
      ensures !old(busy) ==> progbuf == old(progbuf)[i := value] && Executed(i in autoexecProgbuf, old(dmdata))
      ensures old(cmderr) != CMDERR_NONE ==> cmderr == old(cmderr)
    {
      if !busy {
        progbuf := progbuf[i := value];
      }
      if !busy && i in autoexecProgbuf {
        PerformAbstractCommand();
      }
    }

    method WriteCommand(c: Command)
      requires Valid()
      modifies this`busy, this`cmderr, this`goFlag, this`abstractCode, this`dmdata, this`customBase, this`goings, this`issued,
        this`command
      ensures Valid() && command == c && (!Performs(old(cmderr), old(busy), halted[hartsel], c) ==> Idle())
      ensures cmderr == Outcome(old(cmderr), old(busy), halted[hartsel], c, progbufsize)
      ensures Performs(old(cmderr), old(busy), halted[hartsel], c) ==> Performed(old(dmdata))
    {
      command := c;
      PerformAbstractCommand();
    }

    /**
     * The only way out of an error: a one clears its bit, a zero keeps it, and none is ever set. The
     * error is gone exactly when all the bits that were set are written with ones.
     */
    method WriteAbstractcs(mask: nat)
      requires Valid()
      modifies this`cmderr
      ensures Valid()
      ensures forall b :: 0 <= b < 3 ==> (BitOf(cmderr, b) <==> BitOf(old(cmderr), b) && !BitOf(mask, b))
      ensures cmderr == CMDERR_NONE <==> forall b :: 0 <= b < 3 && BitOf(old(cmderr), b) ==> BitOf(mask, b)
    {
      cmderr := ClearBits(cmderr, mask);
    }

    method WriteAbstractauto(data: set<nat>, buf: set<nat>)
      requires Valid()
      modifies this`autoexecData, this`autoexecProgbuf
      ensures Valid() && autoexecData == data && autoexecProgbuf == buf
    {
      autoexecData, autoexecProgbuf := data, buf;
    }

    /**
     * dmcontrol, without a reset. The selected hart may be asked to halt or to resume. Another hart may
     * be selected exactly when that cannot break the protocol: SelectBreaks shows the other half.
     */
    method WriteDmcontrol(sel: nat, haltreq: bool, resumereq: bool)
      requires Shape() && sel < HARTS
      modifies this`hartsel, this`haltRequest, this`resumeFlag, this`resumeack
      ensures Shape() && hartsel == sel
      ensures old(Valid()) ==>
                (Valid() <==> MaySelect(busy, old(hartsel), sel, goFlag[old(hartsel)], stage[old(hartsel)], nprocs))
      ensures haltRequest == if sel < nprocs then old(haltRequest)[sel := haltreq] else old(haltRequest)
      ensures resumeFlag == if sel < nprocs && resumereq then old(resumeFlag)[sel := true] else old(resumeFlag)
      ensures resumeack == if sel < nprocs && resumereq then old(resumeack)[sel := false] else old(resumeack)
    {
      hartsel := sel;
      if sel < nprocs {
        haltRequest := haltRequest[sel := haltreq];
        if resumereq {
          resumeFlag, resumeack := resumeFlag[sel := true], resumeack[sel := false];
        }
      }
    }
  }

  /**
   * No command is running, the hart stays the same, or the hart passed GOING and is done with the
   * command; a single hart may also be left while it is at the command.
   */
  predicate MaySelect(busy: bool, from: nat, to: nat, go: bool, fromStage: Stage, nprocs: nat) {
    !busy || from == to || (!go && (!Commanded(fromStage) || nprocs == 1))
  }

  /** No step from a valid state breaks the protocol. */
  lemma ValidNotBroken(m: System)
    requires m.Valid()
    ensures !m.Broken()
  {
  }

  // ---- selecting another hart too early ---------------------------------------------------------------

  /** A hart that is not going comes round to the HALTED store. */
  method ToHalted(m: System, k: nat)
    requires m.Shape() && k < m.nprocs && !Commanded(m.stage[k]) && m.stage[k] != AtGoing
    requires m.stage[k] == AtGoFlag ==> !m.goFlag[k]
    modifies m`stage, m`halted, m`resumeack, m`resumeFlag
    ensures m.Shape() && m.stage == old(m.stage)[k := AtHalted]
  {
    if m.stage[k] == AtGoFlag {
      m.LoadGoFlag(k);
    }
    if m.stage[k] == AtResumeFlag {
      m.LoadResumeFlag(k);
    }
    if m.stage[k] == AtResuming {
      m.StoreResuming(k);
    }
    if m.stage[k] == Running {
      m.HartHalts(k);
    }
  }

  /** With its flag set, it comes round to the GOING store. */
  method ToGoing(m: System, k: nat)
    requires m.Shape() && k < m.nprocs && k != m.hartsel && m.goFlag[k] && !Commanded(m.stage[k])
    modifies m`stage, m`halted, m`resumeack, m`resumeFlag, m`busy
    ensures m.Shape() && m.stage == old(m.stage)[k := AtGoing] && m.busy == old(m.busy)
  {
    if m.stage[k] == AtGoing {
      return;
    }
    if m.stage[k] != AtGoFlag {
      ToHalted(m, k);
      m.StoreHalted(k);
    }
    m.LoadGoFlag(k);
  }

  /** GOING clears the flag of the selected hart, so the hart that has the command goes twice. */
  method GoesTwice(m: System, k: nat)
    requires m.Shape() && k < m.nprocs && k != m.hartsel && m.goFlag[k] && !Commanded(m.stage[k])
    modifies m`stage, m`halted, m`resumeack, m`resumeFlag, m`busy, m`goFlag, m`goings
    ensures m.Shape() && m.goings == old(m.goings) + 2 && m.busy == old(m.busy)
  {
    ToGoing(m, k);
    m.StoreGoing(k);
    m.CommandEnds(k);
    ToGoing(m, k);
    m.StoreGoing(k);
  }

  /** The HALTED store of the newly selected hart ends a command it has nothing to do with. */
  method EndsEarly(m: System, k: nat, other: nat)
    requires m.Shape() && k < m.nprocs && other < m.nprocs && other != k && other == m.hartsel && Commanded(m.stage[k])
    requires !m.goFlag[other] && !Commanded(m.stage[other]) && m.stage[other] != AtGoing
    modifies m`stage, m`halted, m`resumeack, m`resumeFlag, m`busy
    ensures m.Shape() && !m.busy && Commanded(m.stage[k])
  {
    ToHalted(m, other);
    m.StoreHalted(other);
  }

  /**
   * From every valid state in which another hart must not be selected, doing so has a continuation
   * that breaks the protocol: the command passes GOING twice, or it is taken to be over too early.
   */
  method SelectBreaks(m: System, sel: nat, haltreq: bool, resumereq: bool)
    requires m.Valid() && sel < HARTS
    requires !MaySelect(m.busy, m.hartsel, sel, m.goFlag[m.hartsel], m.stage[m.hartsel], m.nprocs)
    modifies m
    ensures m.Shape() && m.Broken() && m.issued == old(m.issued)
    ensures if old(m.goFlag[m.hartsel]) then m.busy && m.goings == 2 else !m.busy && Commanded(m.stage[old(m.hartsel)])
  {
    var k, go := m.hartsel, m.goFlag[m.hartsel];
    m.WriteDmcontrol(sel, haltreq, resumereq);
    if go {
      GoesTwice(m, k);
    } else {
      var other := sel;
      if sel >= m.nprocs {
        other := if k == 0 then 1 else 0;
        m.WriteDmcontrol(other, false, false);
      }
      EndsEarly(m, k, other);
    }
  }

  /** Hart 0 of two has seen the flag of the first command. */
  method PickedUp(c: Command) returns (m: System)
    requires c.cmdtype == 0 && !c.transfer
    ensures fresh(m) && m.Valid() && m.hartsel == 0 && m.stage[0] == AtGoing && m.goFlag[0] && m.busy && m.goings == 0
    ensures m.issued == Compile(c, 2).insns && m.nprocs == 2
  {
    hide Partial;
    m := new System(2, 2, 0);
    m.HartHalts(0);
    m.StoreHalted(0);
    m.WriteCommand(c);
    m.LoadGoFlag(0);
  }

  /** If hart 1 is selected now, hart 0 passes GOING twice for the same command. */
  method ReselectedRun(c: Command) returns (m: System)
    requires c.cmdtype == 0 && !c.transfer
    ensures m.Shape() && m.busy && m.goings == 2 && m.issued == Compile(c, 2).insns
  {
    hide Compile;
    m := PickedUp(c);
    SelectBreaks(m, 1, false, false);
  }

  /** If it is selected one step later, the command is over while hart 0 executes it. */
  method EndedEarlyRun(c: Command) returns (m: System)
    requires c.cmdtype == 0 && !c.transfer
    ensures m.Shape() && !m.busy && Commanded(m.stage[0]) && m.issued == Compile(c, 2).insns
  {
    hide Compile;
    m := PickedUp(c);
    m.StoreGoing(0);
    SelectBreaks(m, 1, false, false);
  }

  lemma CompiledType(c: Command, progbufsize: nat)
    ensures c.cmdtype != 0 ==> Compile(c, progbufsize) == NotSupported
  {
  }
}
