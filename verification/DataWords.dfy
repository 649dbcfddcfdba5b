/** What the machine does with every data-processing word: the value in Rd, in integers or bit by bit, the flags,
    and nothing else.  Operands gives the operand `y` and the carry-out of each word. */
module DataWords {
  import opened Bits
  import opened Util
  import opened Registers
  import opened ArmCore
  import opened Fields
  import opened Shifter
  import opened Operands
  import opened DataProcessing
  import opened FlagProperties
  import M = Machine

  /** Class 1, and class 0 but for bits 24..23 at 10 with S clear. */
  predicate IsData(ins: word) {
    Class(ins) == 1 || (Class(ins) == 0 && (GetBits(ins, 24, 23) != 2 || GetBit(ins, 20) == 1))
  }

  /** The operand and the carry-out. */
  function OperandOf(s: State, ins: word): Operand
    requires M.Executable(s, ins) && IsData(ins)
  {
    ShifterOperand(s.regs, ins, Operand(0, 0))
  }

  lemma DataDispatch(s: State, ins: word)
    requires M.Executable(s, ins) && IsData(ins)
    ensures ShifterDefined(s, ins)
    ensures M.Dispatch(s, ins) ==
            match Process(s, ins)
            case Returned(t) => Returned(M.Done(t, 0))
            case Exited(code) => Exited(code)
  {
  }

  // ----- Words that write Rd -----

  /** `v` goes to Rd.  With S clear nothing else changes.  With S set N and Z describe v and the 28 low CPSR bits
      stay; for Rd = R15 the CPSR becomes the SPSR in the modes that have one, and stays in the others. */
  ghost predicate Writes(s: State, o: Outcome<M.Done>, ins: word, v: word)
    requires s.Valid()
  {
    && o.Returned? && o.value.code == 0 && |o.value.state.regs| == SLOTS
    && var t, rd := o.value.state, Rd(ins);
    && (GetBit(ins, 20) == 0 ==> t == s.(regs := s.regs[rd := v]))
    && (GetBit(ins, 20) == 1 ==> t == s.(regs := s.regs[rd := v][CPSR := t.regs[CPSR]]))
    && (GetBit(ins, 20) == 1 && rd < 15 ==>
          && Flag(t.regs, 31) == (if Signed(v) < 0 then 1 else 0)
          && Flag(t.regs, 30) == (if v == 0 then 1 else 0)
          && forall i: nat :: i < 28 ==> Bit(t.regs[CPSR], i) == Bit(s.regs[CPSR], i))
    && (GetBit(ins, 20) == 1 && rd == 15 ==>
          t.regs[CPSR] == if HasSpsr(s.mode) then s.regs[SpsrSlot(s.mode)] else s.regs[CPSR])
  }

  lemma ComputedWrites(s: State, ins: word, carry: byte, y: word)
    requires s.Valid() && !Compares(Opcode(ins))
    ensures var t := Computed(s, Opcode(ins), GetBit(ins, 20), Rd(ins), Rn(ins), y, carry);
            var v := Alu(Opcode(ins), ReadReg(s.regs, Rn(ins)), y, Flag(s.regs, 29));
            Writes(s, Returned(M.Done(t, 0)), ins, v) && t.regs[Rd(ins)] == v
  {
    if GetBit(ins, 20) == 1 && Rd(ins) < 15 {
      FlagsOf(s, Opcode(ins), Rd(ins), Rn(ins), y, carry);
    }
  }

  lemma WordComputes(s: State, ins: word)
    requires M.Executable(s, ins) && IsData(ins) && !Compares(Opcode(ins))
    ensures var o := OperandOf(s, ins);
            M.Dispatch(s, ins) ==
            Returned(M.Done(Computed(s, Opcode(ins), GetBit(ins, 20), Rd(ins), Rn(ins), o.value, o.carry), 0))
  {
    DataDispatch(s, ins);
  }

  lemma WordWrites(s: State, ins: word)
    requires M.Executable(s, ins) && IsData(ins) && !Compares(Opcode(ins))
    ensures var v := Alu(Opcode(ins), ReadReg(s.regs, Rn(ins)), OperandOf(s, ins).value, Flag(s.regs, 29));
            Writes(s, M.Dispatch(s, ins), ins, v) && M.Dispatch(s, ins).value.state.regs[Rd(ins)] == v
  {
    var o := OperandOf(s, ins);
    WordComputes(s, ins);
    ComputedWrites(s, ins, o.carry, o.value);
  }

  /** The sum or difference of opcodes 2 to 7, SBC's and RSC's 2 above the manual's. */
  function SumOrDifference(opcode: nat, x: int, y: int, c: nat): int {
    if opcode == 2 then x - y
    else if opcode == 3 then y - x
    else if opcode == 4 then x + y
    else if opcode == 5 then x + y + c
    else if opcode == 6 then x - y - (1 - c) + 2
    else y - x - (1 - c) + 2
  }

  /** SUB, RSB, ADD, ADC, SBC and RSC leave it modulo 2^32 in Rd. */
  lemma ArithmeticWords(s: State, ins: word)
    requires M.Executable(s, ins) && IsData(ins) && 2 <= Opcode(ins) <= 7
    ensures var x, y, c := ReadReg(s.regs, Rn(ins)), OperandOf(s, ins).value, Flag(s.regs, 29);
            Writes(s, M.Dispatch(s, ins), ins, Wrap(SumOrDifference(Opcode(ins), x, y, c)))
  {
    WordWrites(s, ins);
    ArithmeticValue(Opcode(ins), ReadReg(s.regs, Rn(ins)), OperandOf(s, ins).value, Flag(s.regs, 29));
  }

  lemma ArithmeticValue(opcode: nat, rn: word, operand: word, c: nat)
    requires 2 <= opcode <= 7
    ensures Alu(opcode, rn, operand, c) == Wrap(SumOrDifference(opcode, rn, operand, c))
  {
  }

  /** With S set and Rd below R15 the state is the one the lemmas on C and V of the six speak about. */
  lemma ArithmeticFlags(s: State, ins: word)
    requires M.Executable(s, ins) && IsData(ins) && 2 <= Opcode(ins) <= 7 && GetBit(ins, 20) == 1 && Rd(ins) < 15
    ensures M.Dispatch(s, ins) ==
            Returned(M.Done(Computed(s, Opcode(ins), 1, Rd(ins), Rn(ins), OperandOf(s, ins).value, 0), 0))
  {
    var o := OperandOf(s, ins);
    WordComputes(s, ins);
    CarryUnused(s, Opcode(ins), Rd(ins), Rn(ins), o.value, o.carry);
  }

  lemma CarryUnused(s: State, opcode: nat, rd: nat, rn: nat, operand: word, carry: byte)
    requires s.Valid() && 2 <= opcode <= 7 && rd < 16 && rn < 16
    ensures Computed(s, opcode, 1, rd, rn, operand, carry) == Computed(s, opcode, 1, rd, rn, operand, 0)
  {
    var x, c := ReadReg(s.regs, rn), Flag(s.regs, 29);
    var value := Alu(opcode, x, operand, c);
    BytesWithoutCarry(opcode, FlagSource(s, opcode, rd, rn, value), operand, c, carry, value);
  }

  lemma BytesWithoutCarry(opcode: nat, x: word, y: word, c: nat, carry: byte, value: word)
    requires 2 <= opcode <= 7
    ensures FlagBytes(opcode, x, y, c, carry, value) == FlagBytes(opcode, x, y, c, 0, value)
  {
  }

  /** RSB with S set compares the operand with Rn. */
  lemma ReverseSubtractWords(s: State, ins: word)
    requires M.Executable(s, ins) && IsData(ins) && Opcode(ins) == 3 && GetBit(ins, 20) == 1 && Rd(ins) < 15
    ensures M.Dispatch(s, ins).Returned?
    ensures ComparesSigned(M.Dispatch(s, ins).value.state, OperandOf(s, ins).value, ReadReg(s.regs, Rn(ins)))
  {
    var o := OperandOf(s, ins);
    WordComputes(s, ins);
    RsbComparesSigned(s, Rd(ins), Rn(ins), o.value, o.carry);
  }

  /** AND, EOR, ORR, MOV, BIC and MVN, bit by bit; with S set C is the carry-out and V stays. */
  lemma LogicalWords(s: State, ins: word)
    requires M.Executable(s, ins) && IsData(ins) && Logical(Opcode(ins))
    ensures M.Dispatch(s, ins).Returned? && |M.Dispatch(s, ins).value.state.regs| == SLOTS
    ensures var x, o, t := ReadReg(s.regs, Rn(ins)), OperandOf(s, ins), M.Dispatch(s, ins).value.state;
            var v := t.regs[Rd(ins)];
            && Writes(s, M.Dispatch(s, ins), ins, v)
            && (forall i: nat :: i < 32 ==> Bit(v, i) == LogicalBit(Opcode(ins), Bit(x, i), Bit(o.value, i)))
            && (GetBit(ins, 20) == 1 && Rd(ins) < 15 ==>
                  Flag(t.regs, 29) == o.carry && Flag(t.regs, 28) == Flag(s.regs, 28))
  {
    var x, o := ReadReg(s.regs, Rn(ins)), OperandOf(s, ins);
    WordComputes(s, ins);
    WordWrites(s, ins);
    forall i: nat | i < 32
      ensures Bit(Alu(Opcode(ins), x, o.value, Flag(s.regs, 29)), i)
           == LogicalBit(Opcode(ins), Bit(x, i), Bit(o.value, i))
    {
      LogicalResult(Opcode(ins), x, o.value, Flag(s.regs, 29), i);
    }
    if GetBit(ins, 20) == 1 && Rd(ins) < 15 {
      CarryIsBit(s.regs, ins);
      LogicalComputed(s, Opcode(ins), Rd(ins), Rn(ins), o.value, o.carry);
    }
  }

  /** MOV leaves the operand, MVN its complement. */
  lemma MoveWords(s: State, ins: word)
    requires M.Executable(s, ins) && IsData(ins) && (Opcode(ins) == 13 || Opcode(ins) == 15)
    ensures var y := OperandOf(s, ins).value;
            Writes(s, M.Dispatch(s, ins), ins, if Opcode(ins) == 13 then y else 0xFFFF_FFFF - y)
  {
    WordWrites(s, ins);
    MoveValues(ReadReg(s.regs, Rn(ins)), OperandOf(s, ins).value, Flag(s.regs, 29));
  }

  lemma MoveValues(rn: word, operand: word, c: nat)
    ensures Alu(13, rn, operand, c) == operand && Alu(15, rn, operand, c) as int == 0xFFFF_FFFF - operand as int
  {
  }

  /** MOV of an immediate leaves the 8 low bits rotated right by twice bits 11..8. */
  lemma MoveImmediate(s: State, ins: word)
    requires M.Executable(s, ins) && Class(ins) == 1 && Opcode(ins) == 13
    ensures var x, r := ins % 0x100, 2 * (ins / 0x100 % 0x10);
            Writes(s, M.Dispatch(s, ins), ins, if r == 0 then x else Wrap(x / Pow2(r) + x % Pow2(r) * Pow2(32 - r)))
  {
    ClassBit(ins);
    OperandImmediate(s.regs, ins);
    MoveWords(s, ins);
  }

  lemma ClassBit(ins: word)
    ensures GetBit(ins, 25) == Class(ins) % 2
  {
    BitOfGetBits(ins, 27, 25, 0);
  }

  // ----- Compares -----

  /** TST, TEQ, CMP and CMN with the result v: no register changes; N and Z are those of the register numbered by
      v's low byte; in USR and SYS a number above 15 ends the program. */
  ghost predicate Tests(s: State, o: Outcome<M.Done>, v: word)
    requires s.Valid()
  {
    if v % 0x100 > 15 && Unbanked(s.mode) then o == Exited(0)
    else
      && o.Returned? && o.value.code == 0 && |o.value.state.regs| == SLOTS
      && var t, r := o.value.state, Numbered(s, v % 0x100);
      && t == s.(regs := s.regs[CPSR := t.regs[CPSR]])
      && Flag(t.regs, 31) == (if Signed(r) < 0 then 1 else 0)
      && Flag(t.regs, 30) == (if r == 0 then 1 else 0)
      && forall i: nat :: i < 28 ==> Bit(t.regs[CPSR], i) == Bit(s.regs[CPSR], i)
  }

  /** C and V after a compare, when it returns. */
  ghost predicate LeavesCV(o: Outcome<M.Done>, c: nat, v: bool) {
    o.Returned? ==>
      && |o.value.state.regs| == SLOTS
      && Flag(o.value.state.regs, 29) == c && (Flag(o.value.state.regs, 28) == 1 <==> v)
  }

  /** Two words and a sum or difference of one sign. */
  predicate OneSign(x: word, y: word, z: word) {
    (Signed(x) < 0 <==> Signed(y) < 0) && (Signed(x) < 0 <==> Signed(z) < 0)
  }

  lemma WordCompares(s: State, ins: word)
    requires M.Executable(s, ins) && IsData(ins) && Compares(Opcode(ins))
    ensures var o := OperandOf(s, ins);
            M.Dispatch(s, ins) ==
            match Compared(s, Opcode(ins), Rn(ins), o.value, o.carry)
            case Returned(t) => Returned(M.Done(t, 0))
            case Exited(code) => Exited(code)
  {
    DataDispatch(s, ins);
  }

  lemma ComparedTests(s: State, opcode: nat, rn: nat, operand: word, carry: byte, v: word)
    requires s.Valid() && Compares(opcode) && rn < 16
    requires v == Alu(opcode, ReadReg(s.regs, rn), operand, Flag(s.regs, 29))
    ensures Tests(s, match Compared(s, opcode, rn, operand, carry)
                     case Returned(t) => Returned(M.Done(t, 0))
                     case Exited(code) => Exited(code), v)
  {
    var o := Compared(s, opcode, rn, operand, carry);
    ComparedFrame(s, opcode, rn, operand, carry);
    ComparedExit(s, opcode, rn, operand, carry);
    if o.Returned? {
      CompareDescribesRegister(s, opcode, rn, operand, carry);
      ReadNumbered(s, v % 0x100);
      ComparedLowBits(s, opcode, rn, operand, carry);
      assert o.value.regs == s.regs[CPSR := o.value.regs[CPSR]];
    }
  }

  lemma ComparedExit(s: State, opcode: nat, rn: nat, operand: word, carry: byte)
    requires s.Valid() && Compares(opcode) && rn < 16
    ensures Compared(s, opcode, rn, operand, carry).Exited? ==> Compared(s, opcode, rn, operand, carry) == Exited(0)
  {
  }

  lemma ComparedLowBits(s: State, opcode: nat, rn: nat, operand: word, carry: byte)
    requires s.Valid() && Compares(opcode) && rn < 16 && Compared(s, opcode, rn, operand, carry).Returned?
    ensures var t := Compared(s, opcode, rn, operand, carry).value;
            t.Valid() && forall i: nat :: i < 28 ==> Bit(t.regs[CPSR], i) == Bit(s.regs[CPSR], i)
  {
    var x, c := ReadReg(s.regs, rn), Flag(s.regs, 29);
    var v := Alu(opcode, x, operand, c);
    var (flagC, flagV) := FlagBytes(opcode, x, operand, c, carry, v);
    var r := ReadAnyOutcome(s, v % 0x100).value;
    forall i: nat | i < 28
      ensures Bit(FlagsFrom(s.regs[CPSR], r, flagC, flagV), i) == Bit(s.regs[CPSR], i)
    {
      FlagsMeaning(s.regs[CPSR], r, flagC, flagV, i);
    }
  }

  lemma WordTests(s: State, ins: word)
    requires M.Executable(s, ins) && IsData(ins) && Compares(Opcode(ins))
    ensures Tests(s, M.Dispatch(s, ins),
                  Alu(Opcode(ins), ReadReg(s.regs, Rn(ins)), OperandOf(s, ins).value, Flag(s.regs, 29)))
  {
    var o := OperandOf(s, ins);
    WordCompares(s, ins);
    ComparedTests(s, Opcode(ins), Rn(ins), o.value, o.carry,
                  Alu(Opcode(ins), ReadReg(s.regs, Rn(ins)), o.value, Flag(s.regs, 29)));
  }

  /** TST and TEQ of any result v that is the conjunction or the difference bit by bit. */
  lemma TestWords(s: State, ins: word, v: word)
    requires M.Executable(s, ins) && IsData(ins) && (Opcode(ins) == 8 || Opcode(ins) == 9)
    requires var x, y := ReadReg(s.regs, Rn(ins)), OperandOf(s, ins).value;
             forall i: nat :: i < 32 ==> Bit(v, i) == LogicalBit(Opcode(ins) - 8, Bit(x, i), Bit(y, i))
    ensures Tests(s, M.Dispatch(s, ins), v)
    ensures LeavesCV(M.Dispatch(s, ins), OperandOf(s, ins).carry, Flag(s.regs, 28) == 1)
  {
    var x, o, c := ReadReg(s.regs, Rn(ins)), OperandOf(s, ins), Flag(s.regs, 29);
    WordTests(s, ins);
    forall i: nat | i < 32
      ensures Bit(Alu(Opcode(ins), x, o.value, c), i) == Bit(v, i)
    {
      LogicalResult(Opcode(ins) - 8, x, o.value, c, i);
    }
    WordsEqual(Alu(Opcode(ins), x, o.value, c), v);
    WordCompares(s, ins);
    CarryIsBit(s.regs, ins);
    if M.Dispatch(s, ins).Returned? {
      TestCarryAndOverflow(s, Opcode(ins), Rn(ins), o.value, o.carry);
    }
  }

  lemma CompareWithoutCarry(s: State, opcode: nat, rn: nat, y: word, carry: byte)
    requires s.Valid() && 10 <= opcode <= 11 && rn < 16
    ensures Compared(s, opcode, rn, y, carry) == Compared(s, opcode, rn, y, 0)
  {
  }

  lemma CompareValues(rn: word, operand: word, c: nat)
    ensures Alu(10, rn, operand, c) == Wrap(rn as int - operand as int)
    ensures Alu(11, rn, operand, c) == Wrap(rn as int + operand as int)
  {
  }

  lemma CmpFlags(s: State, rn: nat, y: word, carry: byte)
    requires s.Valid() && rn < 16 && Compared(s, 10, rn, y, carry).Returned?
    ensures var x, t := ReadReg(s.regs, rn), Compared(s, 10, rn, y, carry).value;
            && t.Valid() && Flag(t.regs, 29) == (if x < y then 0 else Flag(s.regs, 29))
            && (Flag(t.regs, 28) == 1 <==> !Fits(Signed(x) - Signed(y)))
  {
    var x, c := ReadReg(s.regs, rn), Flag(s.regs, 29);
    ComparedCarryOverflow(s, 10, rn, y, carry);
    CompareValues(x, y, c);
    DifferenceBytes(x, y, c, Flag(s.regs, 28), carry, Wrap(x as int - y as int));
    OverflowOfDifference(x, y);
  }

  /** CMP: the difference, C cleared by a borrow and kept otherwise, V exact. */
  lemma CmpWords(s: State, ins: word)
    requires M.Executable(s, ins) && IsData(ins) && Opcode(ins) == 10
    ensures var x, y := ReadReg(s.regs, Rn(ins)), OperandOf(s, ins).value;
            && Tests(s, M.Dispatch(s, ins), Wrap(x as int - y as int))
            && LeavesCV(M.Dispatch(s, ins), if x < y then 0 else Flag(s.regs, 29), !Fits(Signed(x) - Signed(y)))
  {
    var o := OperandOf(s, ins);
    WordTests(s, ins);
    WordCompares(s, ins);
    CompareValues(ReadReg(s.regs, Rn(ins)), o.value, Flag(s.regs, 29));
    if M.Dispatch(s, ins).Returned? {
      CmpFlags(s, Rn(ins), o.value, o.carry);
    }
  }

  lemma CmnFlags(s: State, rn: nat, y: word)
    requires s.Valid() && rn < 16 && Compared(s, 11, rn, y, 0).Returned?
    ensures var x, t := ReadReg(s.regs, rn), Compared(s, 11, rn, y, 0).value;
            && t.Valid() && Flag(t.regs, 29) == 0
            && (Flag(t.regs, 28) == 1 <==> OneSign(x, y, Wrap(x as int + y as int)))
  {
    var x, c := ReadReg(s.regs, rn), Flag(s.regs, 29);
    ComparedCarryOverflow(s, 11, rn, y, 0);
    CompareValues(x, y, c);
    SumBytes(11, x, y, c, Flag(s.regs, 28), Wrap(x as int + y as int));
    SameSigns(x, y, Wrap(x as int + y as int));
  }

  /** CMN: the sum, C clear, V when the operands and the sum have one sign. */
  lemma CmnWords(s: State, ins: word)
    requires M.Executable(s, ins) && IsData(ins) && Opcode(ins) == 11
    ensures var x, y := ReadReg(s.regs, Rn(ins)), OperandOf(s, ins).value;
            var v := Wrap(x as int + y as int);
            && Tests(s, M.Dispatch(s, ins), v) && LeavesCV(M.Dispatch(s, ins), 0, OneSign(x, y, v))
  {
    var o := OperandOf(s, ins);
    WordTests(s, ins);
    WordCompares(s, ins);
    CompareWithoutCarry(s, 11, Rn(ins), o.value, o.carry);
    CompareValues(ReadReg(s.regs, Rn(ins)), o.value, Flag(s.regs, 29));
    if M.Dispatch(s, ins).Returned? {
      CmnFlags(s, Rn(ins), o.value);
    }
  }

  lemma SameSigns(x: word, y: word, z: word)
    ensures OverflowFrom(x, y, z, 1) <==> OneSign(x, y, z)
  {
    SignBit(x);
    SignBit(y);
    SignBit(z);
  }

  /** C and V of SUB, RSB and ADD, from C before. */
  function CarryOf(opcode: nat, x: word, y: word, c: nat): nat {
    if opcode == 2 then (if x < y then 0 else c) else if opcode == 3 then (if y < x then 0 else c) else 0
  }

  predicate OverflowOf(opcode: nat, x: word, y: word) {
    if opcode == 2 then OneSign(x, y, Wrap(x as int - y as int))
    else if opcode == 3 then !Fits(Signed(y) - Signed(x))
    else OneSign(x, y, Wrap(x as int + y as int))
  }

  lemma SubtractCV(x: word, y: word, c: nat, v: nat)
    ensures var bytes := FlagBytes(2, x, y, c, 0, Wrap(x as int - y as int));
            FlagAfter(bytes.0, c) == CarryOf(2, x, y, c) && (FlagAfter(bytes.1, v) == 1 <==> OverflowOf(2, x, y))
  {
    DifferenceBytes(x, y, c, v, 0, Wrap(x as int - y as int));
    SameSigns(x, y, Wrap(x as int - y as int));
  }

  lemma ReverseSubtractCV(x: word, y: word, c: nat, v: nat)
    ensures var bytes := FlagBytes(3, x, y, c, 0, Wrap(y as int - x as int));
            FlagAfter(bytes.0, c) == CarryOf(3, x, y, c) && (FlagAfter(bytes.1, v) == 1 <==> OverflowOf(3, x, y))
  {
    DifferenceBytes(y, x, c, v, 0, Wrap(y as int - x as int));
    OverflowOfDifference(y, x);
  }

  lemma AddCV(x: word, y: word, c: nat, v: nat)
    ensures var bytes := FlagBytes(4, x, y, c, 0, Wrap(x as int + y as int));
            FlagAfter(bytes.0, c) == CarryOf(4, x, y, c) && (FlagAfter(bytes.1, v) == 1 <==> OverflowOf(4, x, y))
  {
    SumBytes(4, x, y, c, v, Wrap(x as int + y as int));
    SameSigns(x, y, Wrap(x as int + y as int));
  }

  lemma BytesCV(opcode: nat, x: word, y: word, c: nat, v: nat)
    requires 2 <= opcode <= 4
    ensures var bytes := FlagBytes(opcode, x, y, c, 0, Alu(opcode, x, y, c));
            && FlagAfter(bytes.0, c) == CarryOf(opcode, x, y, c)
            && (FlagAfter(bytes.1, v) == 1 <==> OverflowOf(opcode, x, y))
  {
    ArithmeticValue(opcode, x, y, c);
    if opcode == 2 {
      SubtractCV(x, y, c, v);
    } else if opcode == 3 {
      ReverseSubtractCV(x, y, c, v);
    } else {
      AddCV(x, y, c, v);
    }
  }

  /** C and V after SUB, RSB and ADD with S set. */
  lemma AddSubtractCV(s: State, ins: word)
    requires M.Executable(s, ins) && IsData(ins) && 2 <= Opcode(ins) <= 4 && GetBit(ins, 20) == 1 && Rd(ins) < 15
    ensures var x, y, c := ReadReg(s.regs, Rn(ins)), OperandOf(s, ins).value, Flag(s.regs, 29);
            LeavesCV(M.Dispatch(s, ins), CarryOf(Opcode(ins), x, y, c), OverflowOf(Opcode(ins), x, y))
  {
    var x, y, c := ReadReg(s.regs, Rn(ins)), OperandOf(s, ins).value, Flag(s.regs, 29);
    ArithmeticFlags(s, ins);
    FlagsOf(s, Opcode(ins), Rd(ins), Rn(ins), y, 0);
    SourceIsRn(s, Opcode(ins), Rd(ins), Rn(ins), Alu(Opcode(ins), x, y, c));
    BytesCV(Opcode(ins), x, y, c, Flag(s.regs, 28));
  }

  lemma SourceIsRn(s: State, opcode: nat, rd: nat, rn: nat, value: word)
    requires s.Valid() && opcode <= 4 && rd < 16 && rn < 16
    ensures FlagSource(s, opcode, rd, rn, value) == ReadReg(s.regs, rn)
  {
  }
}
