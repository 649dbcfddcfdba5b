/** The words that are neither transfers nor data processing, the conditions on the flags, and one step. */
module OtherWords {
  import opened Bits
  import opened Util
  import opened Memory
  import opened Registers
  import opened ArmCore
  import opened Conditions
  import opened Fields
  import opened Encoding
  import opened DataProcessing
  import opened Branch
  import M = Machine

  // ----- Fields -----

  /** The opcode and the fields of branches, register forms and miscellaneous words are digits too. */
  lemma OtherFieldsAreDigits(x: word)
    ensures Opcode(x) == x / 0x20_0000 % 0x10 && Immediate24(x) == x % 0x100_0000
    ensures GetBits(x, 24, 23) == x / 0x80_0000 % 4 && GetBits(x, 11, 4) == x / 0x10 % 0x100
  {
    FieldSizes();
    Powers();
    FieldIs(x, 24, 21, 0x20_0000, 0x10);
    FieldIs(x, 23, 0, 1, 0x100_0000);
    FieldIs(x, 24, 23, 0x80_0000, 4);
    FieldIs(x, 11, 4, 0x10, 0x100);
  }

  // ----- Branches -----

  /** B and BL: R15 moves by 4 times the signed 24-bit immediate from the PC value read, which BL leaves in R14. */
  lemma BranchWords(s: State, ins: word)
    requires M.Executable(s, ins) && Class(ins) == 5
    ensures var i, pc := ins % 0x100_0000, ReadReg(s.regs, 15);
            var next := Wrap(pc as int + 4 * (if i < 0x80_0000 then i else i - 0x100_0000));
            M.Dispatch(s, ins) == Returned(M.Done(
              s.(regs := (if PBit(ins) == 1 then s.regs[14 := pc] else s.regs)[15 := next]), 0))
  {
    BranchSlots(s.regs, ins);
    assert M.Dispatch(s, ins) == Returned(M.Done(s.(regs := BranchRegs(s.regs, ins)), 0));
  }

  lemma BranchSlots(regs: seq<word>, ins: word)
    requires |regs| == SLOTS
    ensures var i, pc := ins % 0x100_0000, ReadReg(regs, 15);
            var next := Wrap(pc as int + 4 * (if i < 0x80_0000 then i else i - 0x100_0000));
            BranchRegs(regs, ins) == (if PBit(ins) == 1 then regs[14 := pc] else regs)[15 := next]
  {
    OtherFieldsAreDigits(ins);
  }

  // ----- Miscellaneous, coprocessor and SWI words -----

  /** Class 0 with bits 24..23 at 10 and S clear: with bit 4 or bit 7 clear Rd gets the CPSR, or with bit 22 the
      SPSR, whose lack ends the program; with both set nothing changes. */
  lemma MiscellaneousWords(s: State, ins: word)
    requires M.Executable(s, ins) && Class(ins) == 0 && GetBits(ins, 24, 23) == 2 && GetBit(ins, 20) == 0
    ensures var o, both := M.Dispatch(s, ins), GetBit(ins, 4) == 1 && GetBit(ins, 7) == 1;
            && (!both && GetBit(ins, 22) == 0 ==>
                  o == Returned(M.Done(s.(regs := s.regs[Rd(ins) := s.regs[16]]), 2)))
            && (!both && GetBit(ins, 22) == 1 && HasSpsr(s.mode) ==>
                  o == Returned(M.Done(s.(regs := s.regs[Rd(ins) := s.regs[SpsrSlot(s.mode)]]), 2)))
            && (!both && GetBit(ins, 22) == 1 && !HasSpsr(s.mode) ==> o == Exited(1))
            && (both ==> o == Returned(M.Done(s, if Passes(s, ins) then 0 else 2)))
  {
  }

  /** Class 6 reports an undefined instruction, class 7 that or, with bit 24, a software interrupt; SWI 0x123456
      ends the program. */
  lemma CoprocessorWords(s: State, ins: word)
    requires M.Executable(s, ins) && Class(ins) >= 6
    ensures var swi := Class(ins) == 7 && PBit(ins) == 1;
            M.Dispatch(s, ins) ==
            if swi && ins % 0x100_0000 == 0x12_3456 then Exited(0)
            else Returned(M.Done(s, if swi then 3 else 2))
  {
  }

  // ----- Conditions -----

  /** A CPSR flag is a digit of slot 16. */
  lemma FlagIsDigit(regs: seq<word>, i: nat)
    requires |regs| == SLOTS && i < 32
    ensures Flag(regs, i) == regs[16] / Pow2(i) % 2
  {
    BitIsDigit(regs[CPSR], i);
  }

  /** The code's test on bits 31, 30, 29 and 28 as N, Z, C and V is the table of section A3.2 but for MI always,
      for LS when Z and C agree, and for LE when Z is set exactly where N and V agree. */
  lemma WherePassesIsRight(s: State, ins: word)
    requires |s.regs| == SLOTS
    ensures var n, z, c, v := Bit(s.regs[16], 31), Bit(s.regs[16], 30), Bit(s.regs[16], 29), Bit(s.regs[16], 28);
            var cond := Cond(ins);
            (Passes(s, ins) <==> Architectural(cond, n == 1, z == 1, c == 1, v == 1)) <==>
            !(cond == MI || (cond == LS && z == c) || (cond == LE && (z == 1) == (n == v)))
  {
    WhereConditionsAgree(Cond(ins), Bit(s.regs[16], 31), Bit(s.regs[16], 30), Bit(s.regs[16], 29),
                         Bit(s.regs[16], 28));
  }

  // ----- One step -----

  /** R15, less 2 where bit 1 of it is set. */
  function FetchedFrom(s: State): word
    requires |s.regs| == SLOTS
  {
    Wrap(s.regs[15] as int - if s.regs[15] % 4 < 2 then 0 else 2)
  }

  /** A step takes the word there, leaves R15 one word further on, and dispatches. */
  lemma StepIsFetchThenDispatch(s: State)
    requires M.CanStep(s)
    ensures InBounds(|s.mem|, FetchedFrom(s), 4)
    ensures M.Fetched(s) == s.(regs := s.regs[15 := Wrap(FetchedFrom(s) as int + 4)])
    ensures M.Instruction(s) == Load(s.mem, s.be, W32, FetchedFrom(s))
    ensures M.Step(s) == M.Dispatch(M.Fetched(s), M.Instruction(s))
  {
    FetchIs(s.regs[15]);
    FetchedAs(s);
  }

  lemma FetchedAs(s: State)
    requires s.Valid() && InBounds(|s.mem|, FetchAddress(s.regs[15]), 4) && FetchAddress(s.regs[15]) == FetchedFrom(s)
    ensures M.Fetched(s) == s.(regs := s.regs[15 := Wrap(FetchedFrom(s) as int + 4)])
    ensures M.Instruction(s) == Load(s.mem, s.be, W32, FetchedFrom(s))
  {
  }

  lemma FetchIs(pc: word)
    ensures FetchAddress(pc) == Wrap(pc as int - if pc % 4 < 2 then 0 else 2)
  {
    PcReadIs(pc);
    WrapAdds(pc + 4, -4);
    WrapAdds(pc + 4, -6);
  }
}
