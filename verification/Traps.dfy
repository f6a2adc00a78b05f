/** Trap entry and return: the stacks of privileges and interrupt enables, and which interrupts are taken. */
module Traps {
  import opened Basics
  import opened Powers
  import opened BootInterp

  const U: nat := 0
  const S: nat := 1
  const M: nat := 3

  /** A trap cause: an interrupt or an exception, and its number. */
  datatype Cause = Cause(interrupt: bool, number: nat)

  /** The bits of mstatus that traps use. */
  datatype Mstatus = Mstatus(sie: bool, mie: bool, spie: bool, mpie: bool, spp: nat, mpp: nat)

  /** What traps read and write. Sets of interrupts stand for the bits of a register. */
  datatype Hart = Hart(pc: nat, priv: nat, mstatus: Mstatus,
                       sepc: nat, scause: Cause, stval: nat, stvec: nat,
                       mepc: nat, mcause: Cause, mtval: nat, mtvec: nat,
                       medeleg: set<nat>, mideleg: set<nat>, mip: set<nat>, mie: set<nat>)

  // ---- the operations ----------------------------------------------------------------------

  /** Where a trap goes: interrupts have vectors of their own in mode 1. */
  function Vector(tvec: nat, cause: Cause): nat {
    var base := tvec - tvec % 4;
    if tvec % 4 == 1 && cause.interrupt then (base + 4 * cause.number) % DWORD else base
  }

  predicate Delegated(h: Hart, cause: Cause) {
    h.priv <= S && cause.number in (if cause.interrupt then h.mideleg else h.medeleg)
  }

  /** raise_exception2 */
  function Raise(h: Hart, cause: Cause, tval: nat): Hart {
    if Delegated(h, cause) then
      h.(scause := cause, sepc := CanonicalS49(h.pc), stval := CanonicalS49(tval),
         mstatus := h.mstatus.(spie := h.mstatus.sie, spp := h.priv, sie := false),
         priv := S, pc := Vector(h.stvec, cause))
    else
      h.(mcause := cause, mepc := CanonicalS49(h.pc), mtval := CanonicalS49(tval),
         mstatus := h.mstatus.(mpie := h.mstatus.mie, mpp := h.priv, mie := false),
         priv := M, pc := Vector(h.mtvec, cause))
  }

  /** handle_sret */
  function Sret(h: Hart): Hart {
    h.(mstatus := h.mstatus.(sie := h.mstatus.spie, spie := true, spp := U), priv := h.mstatus.spp, pc := h.sepc)
  }

  /** handle_mret */
  function Mret(h: Hart): Hart {
    h.(mstatus := h.mstatus.(mie := h.mstatus.mpie, mpie := true, mpp := U), priv := h.mstatus.mpp, pc := h.mepc)
  }

  /** get_pending_irq_mask */
  function PendingIrqMask(h: Hart): set<nat> {
    var pending := h.mip * h.mie;
    if h.priv == M then (if h.mstatus.mie then pending - h.mideleg else {})
    else if h.priv == S then pending - h.mideleg + (if h.mstatus.sie then pending * h.mideleg else {})
    else pending
  }

  // ---- what traps mean ---------------------------------------------------------------------------

  /**
   * Where a handler starts: at the base of its table, which is tvec without its mode; in mode 1,
   * interrupt n starts 4 * n bytes behind it, modulo 2^64.
   */
  predicate StartsAt(pc: nat, tvec: nat, cause: Cause) {
    var base := tvec / 4 * 4;
    if cause.interrupt && tvec % 4 == 1 then pc < DWORD && (pc - base - 4 * cause.number) % DWORD == 0 else pc == base
  }

  /** v in 49 bits, sign-extended to 64. */
  predicate IsTruncated(r: nat, v: nat) {
    Canonical(r) && r % 0x2_0000_0000_0000 == v % 0x2_0000_0000_0000
  }

  /**
   * A trap from h leads to h': the trap registers of the level that takes it tell cause, value and the
   * interrupted program counter, its stack of one entry is pushed, and those of the other level are
   * left alone.
   */
  predicate Trapped(h: Hart, h': Hart, cause: Cause, tval: nat) {
    if Delegated(h, cause) then
      && h'.priv == S && StartsAt(h'.pc, h.stvec, cause)
      && h'.scause == cause && IsTruncated(h'.stval, tval) && IsTruncated(h'.sepc, h.pc)
      && h'.mstatus == h.mstatus.(spie := h.mstatus.sie, spp := h.priv, sie := false)
      && h' == h.(priv := h'.priv, pc := h'.pc, scause := h'.scause, stval := h'.stval, sepc := h'.sepc, mstatus := h'.mstatus)
    else
      && h'.priv == M && StartsAt(h'.pc, h.mtvec, cause)
      && h'.mcause == cause && IsTruncated(h'.mtval, tval) && IsTruncated(h'.mepc, h.pc)
      && h'.mstatus == h.mstatus.(mpie := h.mstatus.mie, mpp := h.priv, mie := false)
      && h' == h.(priv := h'.priv, pc := h'.pc, mcause := h'.mcause, mtval := h'.mtval, mepc := h'.mepc, mstatus := h'.mstatus)
  }

  lemma RaiseTraps(h: Hart, cause: Cause, tval: nat)
    ensures Trapped(h, Raise(h, cause, tval), cause, tval)
  {
    hide StartsAt, IsTruncated, Vector, CanonicalS49;
    VectorStarts(h.stvec, cause);
    VectorStarts(h.mtvec, cause);
    TruncatedIs(tval);
    TruncatedIs(h.pc);
  }

  lemma VectorStarts(tvec: nat, cause: Cause)
    ensures StartsAt(Vector(tvec, cause), tvec, cause)
  {
    var base, n := tvec - tvec % 4, 4 * cause.number;
    assert tvec / 4 * 4 == base;
    if tvec % 4 == 1 && cause.interrupt {
      RemainderAway(base + n, DWORD);
    }
  }

  lemma RemainderAway(x: nat, m: nat)
    requires m > 0
    ensures x % m < m && (x % m - x) % m == 0
  {
    DivModUnique(x % m - x, m, -(x / m), 0);
  }

  lemma TruncatedIs(v: nat)
    ensures IsTruncated(CanonicalS49(v), v)
  {
  }

  /**
   * An interrupt is deliverable exactly when it is pending and enabled, and the level it is for is
   * above the present one, or is the present one and has interrupts enabled (section 3.1.6.1 of the
   * RISC-V Privileged Architecture 1.11).
   */
  lemma DeliverableIs(h: Hart, irq: nat)
    requires h.priv == U || h.priv == S || h.priv == M
    ensures var level := if irq in h.mideleg then S else M;
            irq in PendingIrqMask(h) <==>
            && irq in h.mip && irq in h.mie
            && (h.priv < level || (h.priv == level && (if level == S then h.mstatus.sie else h.mstatus.mie)))
  {
  }

  /** The hart as the library updates it, field by field. */
  class TrapUnit {
    var h: Hart

    constructor (h: Hart)
      ensures this.h == h
    {
      this.h := h;
    }

    method RaiseException2(cause: Cause, tval: nat)
      modifies this
      ensures h == Raise(old(h), cause, tval) && Trapped(old(h), h, cause, tval)
    {
      var deleg := false;
      if h.priv <= S {
        deleg := cause.number in (if cause.interrupt then h.mideleg else h.medeleg);
      }
      var tvec;
      if deleg {
        h := h.(scause := cause, sepc := CanonicalS49(h.pc), stval := CanonicalS49(tval));
        h := h.(mstatus := h.mstatus.(spie := h.mstatus.sie));
        h := h.(mstatus := h.mstatus.(spp := h.priv));
        h := h.(mstatus := h.mstatus.(sie := false));
        h := h.(priv := S);
        tvec := h.stvec;
      } else {
        h := h.(mcause := cause, mepc := CanonicalS49(h.pc), mtval := CanonicalS49(tval));
        h := h.(mstatus := h.mstatus.(mpie := h.mstatus.mie));
        h := h.(mstatus := h.mstatus.(mpp := h.priv));
        h := h.(mstatus := h.mstatus.(mie := false));
        h := h.(priv := M);
        tvec := h.mtvec;
      }
      var mode, base := tvec % 4, tvec - tvec % 4;
      h := h.(pc := base);
      if mode == 1 && cause.interrupt {
        h := h.(pc := (h.pc + 4 * cause.number) % DWORD);
      }
      RaiseTraps(old(h), cause, tval);
    }

    method HandleSret()
      modifies this
      ensures h == Sret(old(h)) && h.priv == old(h).mstatus.spp && h.pc == old(h).sepc
      ensures h.mstatus == old(h).mstatus.(sie := old(h).mstatus.spie, spie := true, spp := U)
      ensures h == old(h).(priv := h.priv, pc := h.pc, mstatus := h.mstatus)
    {
      h := h.(mstatus := h.mstatus.(sie := h.mstatus.spie));
      h := h.(mstatus := h.mstatus.(spie := true));
      var spp := h.mstatus.spp;
      h := h.(mstatus := h.mstatus.(spp := U));
      h := h.(priv := spp, pc := h.sepc);
    }

    method HandleMret()
      modifies this
      ensures h == Mret(old(h)) && h.priv == old(h).mstatus.mpp && h.pc == old(h).mepc
      ensures h.mstatus == old(h).mstatus.(mie := old(h).mstatus.mpie, mpie := true, mpp := U)
      ensures h == old(h).(priv := h.priv, pc := h.pc, mstatus := h.mstatus)
    {
      h := h.(mstatus := h.mstatus.(mie := h.mstatus.mpie));
      h := h.(mstatus := h.mstatus.(mpie := true));
      var mpp := h.mstatus.mpp;
      h := h.(mstatus := h.mstatus.(mpp := U));
      h := h.(priv := mpp, pc := h.mepc);
    }

    /**
     * raise_interrupt: the lowest deliverable interrupt, if there is one, and afterwards no interrupt
     * for the level that took it is deliverable.
     */
    method RaiseInterrupt() returns (taken: bool)
      modifies this
      ensures taken == (PendingIrqMask(old(h)) != {})
      ensures !taken ==> h == old(h)
      ensures taken ==>
                exists irq :: IsLowest(PendingIrqMask(old(h)), irq) && h == Raise(old(h), Cause(true, irq), 0) &&
                              Trapped(old(h), h, Cause(true, irq), 0)
      ensures taken ==> Quiet(h)
    {
      var mask := PendingIrqMask(h);
      if mask == {} {
        return false;
      }
      ghost var low := LowestExists(mask);
      var irq :| irq in mask && IsLowest(mask, irq);
      InterruptQuiet(h, irq);
      RaiseException2(Cause(true, irq), 0);
      return true;
    }
  }

  predicate IsLowest(mask: set<nat>, irq: nat) {
    irq in mask && forall j :: j in mask ==> irq <= j
  }

  lemma {:induction false} LowestExists(mask: set<nat>) returns (irq: nat)
    requires mask != {}
    ensures IsLowest(mask, irq)
    decreases |mask|
  {
    var k :| k in mask;
    var rest := mask - {k};
    irq := k;
    if rest != {} {
      var low := LowestExists(rest);
      irq := if k < low then k else low;
      forall j | j in mask
        ensures irq <= j
      {
        assert j == k || j in rest;
      }
    } else {
      forall j | j in mask
        ensures irq <= j
      {
        assert j == k || j in rest;
      }
    }
  }

  // ---- privileges and interrupts -------------------------------------------------------------------

  /** No trap lowers the privilege, and S-mode only takes what is delegated to it. */
  lemma NoTrapLowers(h: Hart, cause: Cause, tval: nat)
    requires h.priv <= M
    ensures Raise(h, cause, tval).priv >= h.priv
    ensures Raise(h, cause, tval).priv == S <==> Delegated(h, cause)
  {
  }

  /** Deliverable interrupts are all for a higher level. */
  predicate Quiet(h: Hart) {
    if h.priv == M then PendingIrqMask(h) == {} else PendingIrqMask(h) !! h.mideleg
  }

  lemma InterruptQuiet(h: Hart, irq: nat)
    ensures Quiet(Raise(h, Cause(true, irq), 0))
  {
  }

  /** Interrupts for the level the hart is at are disabled. */
  predicate Disabled(h: Hart) {
    (h.priv == S && !h.mstatus.sie) || (h.priv == M && !h.mstatus.mie)
  }

  /**
   * What happens while a handler runs: software at its level, which may change anything but the level
   * and its enable bit; or a trap to M-mode, whose handler leaves mstatus as it finds it, and mret.
   */
  datatype Activity = Software(after: Hart) | RoundM(cause: Cause, tval: nat, inM: Hart)

  predicate Happens(h: Hart, a: Activity) {
    match a
    case Software(h') =>
      h'.priv == h.priv && (if h.priv == M then h'.mstatus.mie == h.mstatus.mie else h'.mstatus.sie == h.mstatus.sie)
    case RoundM(cause, tval, inM) =>
      !Delegated(h, cause) && inM.priv == M && inM.mstatus == Raise(h, cause, tval).mstatus
  }

  function Then(h: Hart, a: Activity): Hart {
    if a.Software? then a.after else Mret(a.inM)
  }

  function ThenAll(h: Hart, activities: seq<Activity>): Hart
    decreases |activities|
  {
    if |activities| == 0 then h else ThenAll(Then(h, activities[0]), activities[1..])
  }

  predicate HappenAll(h: Hart, activities: seq<Activity>)
    decreases |activities|
  {
    |activities| == 0 || (Happens(h, activities[0]) && HappenAll(Then(h, activities[0]), activities[1..]))
  }

  /** It stays so until software sets the enable bit, whatever becomes pending, enabled or delegated meanwhile. */
  lemma {:induction false} StaysQuiet(h: Hart, activities: seq<Activity>)
    requires Disabled(h) && HappenAll(h, activities)
    ensures var h' := ThenAll(h, activities); Disabled(h') && Quiet(h') && h'.priv == h.priv
    decreases |activities|
  {
    if |activities| > 0 {
      hide Vector, CanonicalS49;
      assert Disabled(Then(h, activities[0]));
      hide Happens, Then, Disabled, Quiet;
      StaysQuiet(Then(h, activities[0]), activities[1..]);
    }
  }

  /** In particular after an interrupt was taken. */
  lemma QuietAfterInterrupt(h: Hart, irq: nat, activities: seq<Activity>)
    requires HappenAll(Raise(h, Cause(true, irq), 0), activities)
    ensures Quiet(ThenAll(Raise(h, Cause(true, irq), 0), activities))
  {
    hide Quiet, ThenAll, HappenAll;
    StaysQuiet(Raise(h, Cause(true, irq), 0), activities);
  }

  // ---- the stacks -------------------------------------------------------------------------------------

  /**
   * A trap into M-mode, a handler that leaves mstatus as it finds it, and mret give the privilege and
   * both enable bits back, and the program counter, made canonical, if the handler left mepc alone.
   */
  lemma RoundThroughM(h: Hart, cause: Cause, tval: nat, inM: Hart)
    requires Happens(h, RoundM(cause, tval, inM))
    ensures var h' := Then(h, RoundM(cause, tval, inM));
            && h'.priv == h.priv && h'.mstatus == h.mstatus.(mpie := true, mpp := U)
            && h' == inM.(priv := h'.priv, mstatus := h'.mstatus, pc := h'.pc)
            && (inM.mepc == Raise(h, cause, tval).mepc ==> h'.pc == CanonicalS49(h.pc))
  {
    hide CanonicalS49, Vector;
  }

  /**
   * What may happen in a handler of S-mode: software, nested traps of its own included, that in the end
   * leaves sepc, SPP and SPIE as they were and cannot reach MIE; and rounds through M-mode whose handler
   * leaves sepc and mstatus as it finds them.
   */
  predicate InHandler(h: Hart, a: Activity) {
    match a
    case Software(h') =>
      && h'.priv == S && h'.sepc == h.sepc && h'.mstatus.spp == h.mstatus.spp && h'.mstatus.spie == h.mstatus.spie
      && h'.mstatus.mie == h.mstatus.mie
    case RoundM(_, _, inM) => Happens(h, a) && inM.sepc == h.sepc
  }

  predicate InHandlerAll(h: Hart, activities: seq<Activity>)
    decreases |activities|
  {
    |activities| == 0 || (InHandler(h, activities[0]) && InHandlerAll(Then(h, activities[0]), activities[1..]))
  }

  /** The stack of S-mode survives any run of such activities. */
  lemma {:induction false} HandlerKeeps(h: Hart, activities: seq<Activity>)
    requires h.priv == S && InHandlerAll(h, activities)
    ensures var h' := ThenAll(h, activities);
            && h'.priv == S && h'.sepc == h.sepc && h'.mstatus.spp == h.mstatus.spp && h'.mstatus.spie == h.mstatus.spie
            && h'.mstatus.mie == h.mstatus.mie
    decreases |activities|
  {
    if |activities| > 0 {
      hide CanonicalS49, Vector;
      var a := activities[0];
      if a.RoundM? {
        RoundThroughM(h, a.cause, a.tval, a.inM);
      }
      HandlerKeeps(Then(h, a), activities[1..]);
    }
  }

  /**
   * A delegated trap to S-mode, its handler with any number of traps to M-mode and back, and sret
   * restore the privilege, both enable bits and the program counter, the latter exactly when it was
   * canonical.
   */
  lemma TrapStack(h: Hart, cause: Cause, tval: nat, activities: seq<Activity>)
    requires Delegated(h, cause) && InHandlerAll(Raise(h, cause, tval), activities)
    ensures var h' := Sret(ThenAll(Raise(h, cause, tval), activities));
            && h'.priv == h.priv && h'.mstatus.sie == h.mstatus.sie && h'.mstatus.mie == h.mstatus.mie
            && h'.pc == CanonicalS49(h.pc) && (h'.pc == h.pc <==> Canonical(h.pc))
  {
    HandlerKeeps(Raise(h, cause, tval), activities);
    CanonicalIs(h.pc);
    hide CanonicalS49, ThenAll, InHandlerAll;
  }

  /** The value of a signed 49-bit number, in 64 bits. */
  predicate Canonical(v: nat) {
    v < 0x1_0000_0000_0000 || DWORD - 0x1_0000_0000_0000 <= v < DWORD
  }

  lemma CanonicalIs(v: nat)
    ensures CanonicalS49(v) == v <==> Canonical(v)
  {
  }
}
