/** registers.c: 37 register slots behind mode-gated reads and writes.
    `exit(code)` does not return; the methods report it as `Exited(code)`. */
module Registers {
  import opened Bits

  datatype Outcome<+T> = Returned(value: T) | Exited(code: nat)

  // Modes and slots, as in arm_constants.h and registers.c.
  const USR: byte := 0x10
  const FIQ: byte := 0x11
  const IRQ: byte := 0x12
  const SVC: byte := 0x13
  const ABT: byte := 0x17
  const UND: byte := 0x1b
  const SYS: byte := 0x1f

  const SLOTS := 37
  const PC := 15
  const CPSR := 16
  const R13_SVC := 17
  const SPSR_SVC := 19
  const R13_ABT := 20
  const R14_ABT := 21
  const SPSR_ABT := 22
  const R13_UND := 23
  const R14_UND := 24
  const SPSR_UND := 25
  const R13_IRQ := 26
  const R14_IRQ := 27
  const SPSR_IRQ := 28
  const R8_FIQ := 29
  const SPSR_FIQ := 36

  predicate Known(mode: byte) {
    mode in {USR, FIQ, IRQ, SVC, ABT, UND, SYS}
  }

  predicate Unbanked(mode: byte) {
    mode == USR || mode == SYS
  }

  predicate HasSpsr(mode: byte) {
    mode in {SVC, ABT, UND, IRQ, FIQ}
  }

  function SpsrSlot(mode: byte): (slot: nat)
    requires HasSpsr(mode)
    ensures CPSR < slot < SLOTS
  {
    if mode == SVC then SPSR_SVC
    else if mode == UND then SPSR_UND
    else if mode == ABT then SPSR_ABT
    else if mode == IRQ then SPSR_IRQ
    else SPSR_FIQ
  }

  /** The slots a mode can name.  The range the code tests for FIQ's own bank is empty. */
  predicate Admits(mode: byte, slot: nat) {
    if Unbanked(mode) then slot <= 15
    else Known(mode) && (slot <= 16 || slot in OwnBank(mode))
  }

  function OwnBank(mode: byte): set<nat> {
    if mode == SVC then {17, 18, 19}
    else if mode == ABT then {20, 21, 22}
    else if mode == UND then {23, 24, 25}
    else if mode == IRQ then {26, 27, 28}
    else {}
  }

  // ----- The register file as a value -----

  datatype Regs = Regs(slots: seq<word>, mode: byte)
  {
    predicate Valid() {
      |slots| == SLOTS
    }
  }

  /** A slot outside the mode's set ends the program in USR and SYS, and reads as 0 elsewhere. */
  function ReadOutcome(r: Regs, reg: byte): Outcome<word>
    requires r.Valid()
  {
    if Admits(r.mode, reg) then Returned(r.slots[reg])
    else if Unbanked(r.mode) then Exited(0)
    else Returned(0)
  }

  function WriteOutcome(r: Regs, reg: byte, v: word): Outcome<Regs>
    requires r.Valid()
  {
    if Admits(r.mode, reg) then Returned(r.(slots := r.slots[reg := v]))
    else if Unbanked(r.mode) then Exited(0)
    else Returned(r)
  }

  function ReadUsrOutcome(r: Regs, reg: byte): Outcome<word>
    requires r.Valid()
  {
    if reg > 15 then Exited(0) else Returned(r.slots[reg])
  }

  function WriteUsrOutcome(r: Regs, reg: byte, v: word): Outcome<Regs>
    requires r.Valid()
  {
    if reg > 15 then Exited(0) else Returned(r.(slots := r.slots[reg := v]))
  }

  function ReadSpsrOutcome(r: Regs): Outcome<word>
    requires r.Valid()
  {
    if HasSpsr(r.mode) then Returned(r.slots[SpsrSlot(r.mode)]) else Exited(1)
  }

  function WriteSpsrOutcome(r: Regs, v: word): Outcome<Regs>
    requires r.Valid()
  {
    if HasSpsr(r.mode) then Returned(r.(slots := r.slots[SpsrSlot(r.mode) := v])) else Exited(1)
  }

  // ----- The register file as an object -----

  class RegisterFile {
    const regs: array<word>
    var mode: byte

    ghost predicate Valid() {
      regs.Length == SLOTS
    }

    ghost function View(): Regs
      reads this, regs
    {
      Regs(regs[..], mode)
    }

    /** malloc leaves the slots as they come. */
    constructor ()
      ensures Valid() && fresh(regs) && mode == USR
    {
      regs := new word[SLOTS];
      mode := USR;
    }

    method ReadUsrRegister(reg: byte) returns (r: Outcome<word>)
      requires Valid()
      ensures r == ReadUsrOutcome(View(), reg)
    {
      if reg > 15 {
        return Exited(0);
      }
      r := Returned(regs[reg]);
    }

    method WriteUsrRegister(reg: byte, value: word) returns (r: Outcome<()>)
      requires Valid()
      modifies regs
      ensures match WriteUsrOutcome(old(View()), reg, value)
              case Returned(after) => r == Returned(()) && View() == after
              case Exited(code) => r == Exited(code) && View() == old(View())
    {
      if reg > 15 {
        return Exited(0);
      }
      regs[reg] := value;
      r := Returned(());
    }

    method ReadRegister(reg: byte) returns (r: Outcome<word>)
      requires Valid()
      ensures r == ReadOutcome(View(), reg)
    {
      var value := 0;
      if mode == USR || mode == SYS {
        r := ReadUsrRegister(reg);
        return;
      } else if mode == SVC {
        if reg <= SPSR_SVC {
          value := regs[reg];
        }
      } else if mode == UND {
        if reg <= CPSR || reg == R13_UND || reg == R14_UND || reg == SPSR_UND {
          value := regs[reg];
        }
      } else if mode == ABT {
        if reg <= CPSR || reg == R13_ABT || reg == R14_ABT || reg == SPSR_ABT {
          value := regs[reg];
        }
      } else if mode == IRQ {
        if reg <= CPSR || reg == R13_IRQ || reg == R14_IRQ || reg == SPSR_IRQ {
          value := regs[reg];
        }
      } else if mode == FIQ {
        if reg <= CPSR || (reg >= R8_FIQ && reg <= SPSR_IRQ) {
          value := regs[reg];
        }
      }
      r := Returned(value);
    }

    method WriteRegister(reg: byte, value: word) returns (r: Outcome<()>)
      requires Valid()
      modifies regs
      ensures match WriteOutcome(old(View()), reg, value)
              case Returned(after) => r == Returned(()) && View() == after
              case Exited(code) => r == Exited(code) && View() == old(View())
    {
      r := Returned(());
      if mode == USR || mode == SYS {
        r := WriteUsrRegister(reg, value);
      } else if mode == SVC {
        if reg <= SPSR_SVC {
          regs[reg] := value;
        }
      } else if mode == UND {
        if reg <= CPSR || reg == R13_UND || reg == R14_UND || reg == SPSR_UND {
          regs[reg] := value;
        }
      } else if mode == ABT {
        if reg <= CPSR || reg == R13_ABT || reg == R14_ABT || reg == SPSR_ABT {
          regs[reg] := value;
        }
      } else if mode == IRQ {
        if reg <= CPSR || reg == R13_IRQ || reg == R14_IRQ || reg == SPSR_IRQ {
          regs[reg] := value;
        }
      } else if mode == FIQ {
        if reg <= CPSR || (reg >= R8_FIQ && reg <= SPSR_IRQ) {
          regs[reg] := value;
        }
      }
    }

    method ReadCpsr() returns (value: word)
      requires Valid()
      ensures value == regs[CPSR]
    {
      value := regs[CPSR];
    }

    method WriteCpsr(value: word)
      requires Valid()
      modifies regs
      ensures View() == old(View()).(slots := old(regs[..])[CPSR := value])
    {
      regs[CPSR] := value;
    }

    method ReadSpsr() returns (r: Outcome<word>)
      requires Valid()
      ensures r == ReadSpsrOutcome(View())
    {
      if !(mode == SVC || mode == ABT || mode == UND || mode == IRQ || mode == FIQ) {
        return Exited(1);
      }
      var value := 0;
      if mode == SVC {
        value := regs[SPSR_SVC];
      } else if mode == UND {
        value := regs[SPSR_UND];
      } else if mode == ABT {
        value := regs[SPSR_ABT];
      } else if mode == IRQ {
        value := regs[SPSR_IRQ];
      } else if mode == FIQ {
        value := regs[SPSR_FIQ];
      }
      r := Returned(value);
    }

    method WriteSpsr(value: word) returns (r: Outcome<()>)
      requires Valid()
      modifies regs
      ensures match WriteSpsrOutcome(old(View()), value)
              case Returned(after) => r == Returned(()) && View() == after
              case Exited(code) => r == Exited(code) && View() == old(View())
    {
      if !(mode == SVC || mode == ABT || mode == UND || mode == IRQ || mode == FIQ) {
        return Exited(1);
      }
      if mode == SVC {
        regs[SPSR_SVC] := value;
      } else if mode == UND {
        regs[SPSR_UND] := value;
      } else if mode == ABT {
        regs[SPSR_ABT] := value;
      } else if mode == IRQ {
        regs[SPSR_IRQ] := value;
      } else if mode == FIQ {
        regs[SPSR_FIQ] := value;
      }
      r := Returned(());
    }
  }

  // ----- Runs of calls -----

  datatype Call =
    | CallReadReg(reg: byte)
    | CallReadUsr(reg: byte)
    | CallWriteReg(reg: byte, v: word)
    | CallWriteUsr(reg: byte, v: word)
    | CallReadCpsr
    | CallWriteCpsr(v: word)
    | CallReadSpsr
    | CallWriteSpsr(v: word)

  /** The register file after one call, when the call returns. */
  function Step(r: Regs, c: Call): (o: Outcome<Regs>)
    requires r.Valid()
    ensures o.Returned? ==> o.value.Valid() && o.value.mode == r.mode
  {
    match c
    case CallReadReg(reg) => if ReadOutcome(r, reg).Exited? then Exited(0) else Returned(r)
    case CallReadUsr(reg) => if ReadUsrOutcome(r, reg).Exited? then Exited(0) else Returned(r)
    case CallWriteReg(reg, v) => WriteOutcome(r, reg, v)
    case CallWriteUsr(reg, v) => WriteUsrOutcome(r, reg, v)
    case CallReadCpsr => Returned(r)
    case CallWriteCpsr(v) => Returned(r.(slots := r.slots[CPSR := v]))
    case CallReadSpsr => if ReadSpsrOutcome(r).Exited? then Exited(1) else Returned(r)
    case CallWriteSpsr(v) => WriteSpsrOutcome(r, v)
  }

  function Run(r: Regs, calls: seq<Call>): (o: Outcome<Regs>)
    requires r.Valid()
    ensures o.Returned? ==> o.value.Valid()
  {
    if calls == [] then Returned(r)
    else match Run(r, calls[..|calls| - 1])
         case Returned(mid) => Step(mid, calls[|calls| - 1])
         case Exited(code) => Exited(code)
  }

  /** In USR a call ends the program when it names a slot above 15 or the missing SPSR. */
  predicate StopsUser(c: Call) {
    match c
    case CallReadSpsr => true
    case CallWriteSpsr(_) => true
    case CallReadCpsr => false
    case CallWriteCpsr(_) => false
    case CallReadReg(reg) => reg > 15
    case CallReadUsr(reg) => reg > 15
    case CallWriteReg(reg, _) => reg > 15
    case CallWriteUsr(reg, _) => reg > 15
  }

  /** What the last call meant for `slot` put there, or `initial`. */
  function LastWritten(calls: seq<Call>, slot: nat, initial: word): word {
    if calls == [] then initial
    else
      var rest := LastWritten(calls[..|calls| - 1], slot, initial);
      match calls[|calls| - 1]
      case CallWriteReg(reg, v) => if reg == slot then v else rest
      case CallWriteUsr(reg, v) => if reg == slot then v else rest
      case CallWriteCpsr(v) => if slot == CPSR then v else rest
      case _ => rest
  }

  /** Every run that starts in USR, as registers_create leaves it: it ends the program exactly
      when some call is out of reach; otherwise the mode is still USR, slots 17..36 are as they
      were, and every other slot holds the last value written to it, the CPSR by write_cpsr only. */
  lemma {:induction false} UserRuns(r: Regs, calls: seq<Call>)
    requires r.Valid() && r.mode == USR
    ensures Run(r, calls).Exited? <==> exists c :: c in calls && StopsUser(c)
    ensures Run(r, calls).Returned? ==>
              var after := Run(r, calls).value;
              && after.mode == USR
              && after.slots[17..] == r.slots[17..]
              && forall slot :: 0 <= slot <= 16 ==> after.slots[slot] == LastWritten(calls, slot, r.slots[slot])
  {
    if calls != [] {
      var n := |calls| - 1;
      var front, last := calls[..n], calls[n];
      UserRuns(r, front);
      assert calls == front + [last];
      if Run(r, front).Returned? {
        var mid := Run(r, front).value;
        assert Step(mid, last).Exited? <==> StopsUser(last);
        if !StopsUser(last) {
          var after := Step(mid, last).value;
          assert after.slots[17..] == mid.slots[17..];
        }
      }
    }
  }

  /** So a read returns what was last written. */
  lemma UserReadsLastWrite(r: Regs, calls: seq<Call>, reg: byte)
    requires r.Valid() && r.mode == USR && reg <= 15 && Run(r, calls).Returned?
    ensures ReadOutcome(Run(r, calls).value, reg) == Returned(LastWritten(calls, reg, r.slots[reg]))
  {
    UserRuns(r, calls);
  }

  /** Reads and writes are gated alike in every mode: an admitted slot reads back what is written
      and no other readable slot changes; outside, both refuse the same way and nothing changes. */
  lemma ReadAndWriteAgree(r: Regs, reg: byte, v: word)
    requires r.Valid()
    ensures Admits(r.mode, reg) ==>
              var w := WriteOutcome(r, reg, v);
              && w.Returned? && ReadOutcome(w.value, reg) == Returned(v)
              && forall q: byte :: q != reg ==> ReadOutcome(w.value, q) == ReadOutcome(r, q)
    ensures !Admits(r.mode, reg) ==>
              var w := WriteOutcome(r, reg, v);
              && (w.Exited? <==> ReadOutcome(r, reg).Exited?)
              && (w.Returned? ==> w.value == r)
  {
  }

  /** The slots of a mode: R0..R15 everywhere, the CPSR outside USR and SYS, and three slots of its own for SVC,
      ABT, UND and IRQ. */
  predicate Reaches(mode: byte, reg: byte) {
    reg <= 15 || (!Unbanked(mode) && reg == 16) || (mode == SVC && 17 <= reg <= 19) || (mode == ABT && 20 <= reg <= 22)
    || (mode == UND && 23 <= reg <= 25) || (mode == IRQ && 26 <= reg <= 28)
  }

  /** A slot in reach is read and written as it is; out of reach a call ends the program in USR and SYS, and reads
      0 and writes nothing elsewhere. */
  lemma WhatModesReach(r: Regs, reg: byte, v: word)
    requires r.Valid() && Known(r.mode)
    ensures Reaches(r.mode, reg) ==>
              && reg < SLOTS && ReadOutcome(r, reg) == Returned(r.slots[reg])
              && WriteOutcome(r, reg, v) == Returned(r.(slots := r.slots[reg := v]))
    ensures !Reaches(r.mode, reg) && Unbanked(r.mode) ==>
              ReadOutcome(r, reg) == Exited(0) && WriteOutcome(r, reg, v) == Exited(0)
    ensures !Reaches(r.mode, reg) && !Unbanked(r.mode) ==>
              ReadOutcome(r, reg) == Returned(0) && WriteOutcome(r, reg, v) == Returned(r)
  {
  }

  /** The SPSR of SVC, ABT, UND, IRQ and FIQ is slot 19, 22, 25, 28 and 36; USR and SYS have none. */
  lemma WhereSpsrsAre(r: Regs, v: word)
    requires r.Valid() && Known(r.mode)
    ensures var slot := if r.mode == SVC then 19 else if r.mode == ABT then 22 else if r.mode == UND then 25
                        else if r.mode == IRQ then 28 else 36;
            && (Unbanked(r.mode) ==> ReadSpsrOutcome(r) == Exited(1) && WriteSpsrOutcome(r, v) == Exited(1))
            && (!Unbanked(r.mode) ==>
                  && ReadSpsrOutcome(r) == Returned(r.slots[slot])
                  && WriteSpsrOutcome(r, v) == Returned(r.(slots := r.slots[slot := v])))
  {
  }

  /** In any mode, no run reaches another mode's bank or changes the mode. */
  lemma {:induction false} RunsKeepOtherBanks(r: Regs, calls: seq<Call>, slot: nat)
    requires r.Valid() && 17 <= slot < SLOTS
    requires !Admits(r.mode, slot) && !(HasSpsr(r.mode) && slot == SpsrSlot(r.mode))
    ensures Run(r, calls).Returned? ==>
              Run(r, calls).value.mode == r.mode && Run(r, calls).value.slots[slot] == r.slots[slot]
  {
    if calls != [] {
      RunsKeepOtherBanks(r, calls[..|calls| - 1], slot);
    }
  }
}
