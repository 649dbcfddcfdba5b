/** What the flags mean after a data-processing instruction, and where they fall short of
    the manual. */
module FlagProperties {
  import opened Bits
  import opened Util
  import opened Registers
  import opened ArmCore
  import opened Conditions
  import opened Fields
  import opened Shifter
  import opened DataProcessing

  // ----- write_flags -----

  lemma BitOfPut(cpsr: word, p: nat, on: bool, i: nat)
    requires p < 32 && i < 32
    ensures Bit(PutBit(cpsr, p, on), i) == if i == p then (if on then 1 else 0) else Bit(cpsr, i)
  {
    BitOfSetBit(cpsr, p, i);
  }

  /** A C or V byte: 1 sets the flag, 0xFF leaves it, anything else clears it. */
  function FlagAfter(flag: byte, before: nat): nat {
    if flag == UNAFFECTED then before else if flag == 1 then 1 else 0
  }

  /** N is the result's sign, Z says whether it is 0, C and V follow their bytes, and the 28 low bits stay. */
  lemma FlagsMeaning(cpsr: word, result: word, flagC: byte, flagV: byte, i: nat)
    requires i < 32
    ensures Bit(FlagsFrom(cpsr, result, flagC, flagV), i) ==
            if i == 31 then (if Signed(result) < 0 then 1 else 0)
            else if i == 30 then (if result == 0 then 1 else 0)
            else if i == 29 then FlagAfter(flagC, Bit(cpsr, 29))
            else if i == 28 then FlagAfter(flagV, Bit(cpsr, 28))
            else Bit(cpsr, i)
  {
    TopBit(result);
    var withN := PutBit(cpsr, 31, GetBit(result, 31) == 1);
    var withZ := PutBit(withN, 30, result == 0);
    var withC := if flagC == UNAFFECTED then withZ else PutBit(withZ, 29, flagC == 1);
    BitOfPut(cpsr, 31, GetBit(result, 31) == 1, i);
    BitOfPut(withN, 30, result == 0, i);
    BitOfPut(withZ, 29, flagC == 1, i);
    BitOfPut(withC, 28, flagV == 1, i);
  }

  /** The flags an S=1 instruction with Rd other than R15 leaves, by the bytes it passes on. */
  lemma FlagsOf(s: State, opcode: nat, rd: nat, rn: nat, operand: word, carry: byte)
    requires s.Valid() && opcode < 16 && rd < PC && rn < 16
    ensures var x, c := ReadReg(s.regs, rn), Flag(s.regs, 29);
            var value := Alu(opcode, x, operand, c);
            var bytes := FlagBytes(opcode, FlagSource(s, opcode, rd, rn, value), operand, c, carry, value);
            var t := Computed(s, opcode, 1, rd, rn, operand, carry);
            && |t.regs| == SLOTS
            && t == s.(regs := s.regs[rd := value][CPSR := t.regs[CPSR]])
            && Flag(t.regs, 31) == (if Signed(value) < 0 then 1 else 0)
            && Flag(t.regs, 30) == (if value == 0 then 1 else 0)
            && Flag(t.regs, 29) == FlagAfter(bytes.0, c)
            && Flag(t.regs, 28) == FlagAfter(bytes.1, Flag(s.regs, 28))
            && forall i: nat :: i < 28 ==> Bit(t.regs[CPSR], i) == Bit(s.regs[CPSR], i)
  {
    var x, c := ReadReg(s.regs, rn), Flag(s.regs, 29);
    var value := Alu(opcode, x, operand, c);
    var (flagC, flagV) := FlagBytes(opcode, FlagSource(s, opcode, rd, rn, value), operand, c, carry, value);
    var cpsr := s.regs[CPSR];
    FlagsMeaning(cpsr, value, flagC, flagV, 31);
    FlagsMeaning(cpsr, value, flagC, flagV, 30);
    FlagsMeaning(cpsr, value, flagC, flagV, 29);
    FlagsMeaning(cpsr, value, flagC, flagV, 28);
    forall i: nat | i < 28
      ensures Bit(FlagsFrom(cpsr, value, flagC, flagV), i) == Bit(cpsr, i)
    {
      FlagsMeaning(cpsr, value, flagC, flagV, i);
    }
  }

  // ----- The bytes that go with a difference -----

  lemma DifferenceBytes(x: word, y: word, c: nat, v: nat, carry: byte, value: word)
    ensures FlagAfter(FlagBytes(2, x, y, c, carry, value).0, c) == if x < y then 0 else c
    ensures FlagAfter(FlagBytes(3, y, x, c, carry, value).0, c) == if x < y then 0 else c
    ensures FlagAfter(FlagBytes(10, x, y, c, carry, value).0, c) == if x < y then 0 else c
    ensures FlagAfter(FlagBytes(2, x, y, c, carry, value).1, v) == 1 <==> OverflowFrom(x, y, value, 1)
    ensures FlagAfter(FlagBytes(3, y, x, c, carry, value).1, v) == 1 <==> OverflowFrom(x, y, value, 0)
    ensures FlagAfter(FlagBytes(10, x, y, c, carry, value).1, v) == 1 <==> OverflowFrom(x, y, value, 0)
  {
  }

  // ----- Signed comparison through RSB -----

  lemma SignBit(x: word)
    ensures Shr(x, 31) == if Signed(x) < 0 then 1 else 0
  {
    Pow2At32();
    HalvedIsQuotient(x, 31);
  }

  /** The difference of two signed words, whether or not it fits. */
  function Difference(x: word, y: word): int {
    Signed(x) - Signed(y)
  }

  predicate Fits(d: int) {
    -0x8000_0000 <= d < 0x8000_0000
  }

  /** opcode 0 is the overflow of a subtraction, exactly. */
  lemma OverflowOfDifference(x: word, y: word)
    ensures OverflowFrom(x, y, Wrap(x as int - y as int), 0) <==> !Fits(Difference(x, y))
    ensures Fits(Difference(x, y)) ==> Signed(Wrap(x as int - y as int)) == Difference(x, y)
    ensures !Fits(Difference(x, y)) ==> (Signed(Wrap(x as int - y as int)) < 0 <==> Difference(x, y) > 0)
    ensures Wrap(x as int - y as int) == 0 <==> x == y
  {
    SignBit(x);
    SignBit(y);
    SignBit(Wrap(x as int - y as int));
  }

  lemma SignedConditions(x: word, y: word, n: nat, z: nat, c: nat, v: nat)
    requires n == (if Signed(Wrap(x as int - y as int)) < 0 then 1 else 0)
    requires z == (if Wrap(x as int - y as int) == 0 then 1 else 0)
    requires v == (if OverflowFrom(x, y, Wrap(x as int - y as int), 0) then 1 else 0)
    ensures ConditionOK(EQ, n, z, c, v) <==> x == y
    ensures ConditionOK(NE, n, z, c, v) <==> x != y
    ensures ConditionOK(GE, n, z, c, v) <==> Signed(x) >= Signed(y)
    ensures ConditionOK(LT, n, z, c, v) <==> Signed(x) < Signed(y)
    ensures ConditionOK(GT, n, z, c, v) <==> Signed(x) > Signed(y)
    ensures !ConditionOK(LE, n, z, c, v)
  {
    OverflowOfDifference(x, y);
  }

  /** What the conditions say on the flags of `t` about the operands that were compared: V is exact and EQ,
      NE, GE, LT and GT are the signed comparison; LE, which should accept less or equal, accepts nothing. */
  ghost predicate ComparesSigned(t: State, x: word, y: word) {
    && |t.regs| == SLOTS
    && var n, z, c, v := Flag(t.regs, 31), Flag(t.regs, 30), Flag(t.regs, 29), Flag(t.regs, 28);
    && (v == 1 <==> !Fits(Difference(x, y)))
    && (ConditionOK(EQ, n, z, c, v) <==> x == y)
    && (ConditionOK(NE, n, z, c, v) <==> x != y)
    && (ConditionOK(GE, n, z, c, v) <==> Signed(x) >= Signed(y))
    && (ConditionOK(LT, n, z, c, v) <==> Signed(x) < Signed(y))
    && (ConditionOK(GT, n, z, c, v) <==> Signed(x) > Signed(y))
    && !ConditionOK(LE, n, z, c, v)
  }

  lemma RsbFlags(s: State, rd: nat, rn: nat, operand: word, carry: byte)
    requires s.Valid() && rd < PC && rn < 16
    ensures var x, t := ReadReg(s.regs, rn), Computed(s, 3, 1, rd, rn, operand, carry);
            var value := Wrap(operand as int - x as int);
            && |t.regs| == SLOTS
            && Flag(t.regs, 31) == (if Signed(value) < 0 then 1 else 0)
            && Flag(t.regs, 30) == (if value == 0 then 1 else 0)
            && Flag(t.regs, 28) == (if OverflowFrom(operand, x, value, 0) then 1 else 0)
  {
    var x, c := ReadReg(s.regs, rn), Flag(s.regs, 29);
    FlagsOf(s, 3, rd, rn, operand, carry);
    DifferenceBytes(operand, x, c, Flag(s.regs, 28), carry, Alu(3, x, operand, c));
  }

  /** After RSB with S=1, even onto its own operand, the flags compare the shifter operand with the old Rn. */
  lemma RsbComparesSigned(s: State, rd: nat, rn: nat, operand: word, carry: byte)
    requires s.Valid() && rd < PC && rn < 16
    ensures ComparesSigned(Computed(s, 3, 1, rd, rn, operand, carry), operand, ReadReg(s.regs, rn))
  {
    var x, t := ReadReg(s.regs, rn), Computed(s, 3, 1, rd, rn, operand, carry);
    RsbFlags(s, rd, rn, operand, carry);
    OverflowOfDifference(operand, x);
    SignedConditions(operand, x, Flag(t.regs, 31), Flag(t.regs, 30), Flag(t.regs, 29), Flag(t.regs, 28));
  }

  /** So for every RSB word with S=1 and Rd other than R15. */
  lemma RsbInstruction(s: State, ins: word)
    requires ShifterDefined(s, ins) && Opcode(ins) == 3 && GetBit(ins, 20) == 1 && Rd(ins) != PC
    ensures Process(s, ins).Returned?
    ensures ComparesSigned(Process(s, ins).value,
                           ShifterOperand(s.regs, ins, Operand(0, 0)).value, ReadReg(s.regs, Rn(ins)))
  {
    var o := ShifterOperand(s.regs, ins, Operand(0, 0));
    RsbComparesSigned(s, Rd(ins), Rn(ins), o.value, o.carry);
  }

  // ----- Where carry and overflow are right -----

  lemma SumBytes(opcode: nat, x: word, y: word, c: nat, v: nat, value: word)
    requires opcode == 4 || opcode == 11
    ensures var bytes := FlagBytes(opcode, x, y, c, 0, value);
            && FlagAfter(bytes.0, c) == 0
            && (FlagAfter(bytes.1, v) == 1 <==> OverflowFrom(x, y, value, 1))
  {
  }

  /** carryFrom never reports a carry, so after ADD with S=1 C is right exactly when there is none. */
  lemma WhereAddCarryIsRight(s: State, rd: nat, rn: nat, operand: word)
    requires s.Valid() && rd < PC && rn < 16
    ensures var x, t := ReadReg(s.regs, rn), Computed(s, 4, 1, rd, rn, operand, 0);
            && |t.regs| == SLOTS && Flag(t.regs, 29) == 0
            && ((Flag(t.regs, 29) == 1 <==> x as int + operand as int >= 0x1_0000_0000)
                <==> x as int + operand as int < 0x1_0000_0000)
  {
    FlagsOf(s, 4, rd, rn, operand, 0);
  }

  /** ADD's V reports operands and result of one sign, so it is right exactly when the operands' signs differ. */
  lemma WhereAddOverflowIsRight(s: State, rd: nat, rn: nat, operand: word)
    requires s.Valid() && rd < PC && rn < 16
    ensures var x, t := ReadReg(s.regs, rn), Computed(s, 4, 1, rd, rn, operand, 0);
            && |t.regs| == SLOTS
            && ((Flag(t.regs, 28) == 1 <==> !Fits(Signed(x) + Signed(operand)))
                <==> (Signed(x) < 0 <==> Signed(operand) >= 0))
  {
    var x, c := ReadReg(s.regs, rn), Flag(s.regs, 29);
    FlagsOf(s, 4, rd, rn, operand, 0);
    SumBytes(4, x, operand, c, Flag(s.regs, 28), Alu(4, x, operand, c));
    OverflowOfSum(x, operand);
  }

  lemma OverflowOfSum(x: word, y: word)
    ensures (OverflowFrom(x, y, Wrap(x as int + y as int), 1) <==> !Fits(Signed(x) + Signed(y)))
       <==> (Signed(x) < 0 <==> Signed(y) >= 0)
  {
    SignBit(x);
    SignBit(y);
    SignBit(Wrap(x as int + y as int));
  }

  /** The operands on which SUB's V is right. */
  predicate SubOverflowRight(a: int, b: int) {
    if a >= 0 && b >= 0 then a < b
    else if a < 0 && b < 0 then a >= b
    else Fits(a - b)
  }

  /** SUB uses the same test, so its V is right exactly on non-negative operands with Rn the smaller, on
      negative operands with Rn not the smaller, and on operands of different signs whose difference fits. */
  lemma WhereSubOverflowIsRight(s: State, rd: nat, rn: nat, operand: word)
    requires s.Valid() && rd < PC && rn < 16
    ensures var x, t := ReadReg(s.regs, rn), Computed(s, 2, 1, rd, rn, operand, 0);
            && |t.regs| == SLOTS
            && ((Flag(t.regs, 28) == 1 <==> !Fits(Difference(x, operand)))
                <==> SubOverflowRight(Signed(x), Signed(operand)))
  {
    var x, c := ReadReg(s.regs, rn), Flag(s.regs, 29);
    FlagsOf(s, 2, rd, rn, operand, 0);
    DifferenceBytes(x, operand, c, Flag(s.regs, 28), 0, Alu(2, x, operand, c));
    SubtractionTest(x, operand);
  }

  lemma SubtractionTest(x: word, y: word)
    ensures (OverflowFrom(x, y, Wrap(x as int - y as int), 1) <==> !Fits(Difference(x, y)))
       <==> SubOverflowRight(Signed(x), Signed(y))
  {
    SignBit(x);
    SignBit(y);
    SignBit(Wrap(x as int - y as int));
  }

  /** The inverted borrow byte clears C on a borrow and leaves it otherwise, so after SUB (opcode 2) and
      RSB (opcode 3) C is NOT borrow exactly when there is a borrow or C was set. */
  lemma WhereSubtractCarryIsRight(s: State, opcode: nat, rd: nat, rn: nat, operand: word)
    requires s.Valid() && 2 <= opcode <= 3 && rd < PC && rn < 16
    ensures var x, t := ReadReg(s.regs, rn), Computed(s, opcode, 1, rd, rn, operand, 0);
            var borrow := if opcode == 2 then x < operand else operand < x;
            && |t.regs| == SLOTS
            && Flag(t.regs, 29) == (if borrow then 0 else Flag(s.regs, 29))
            && ((Flag(t.regs, 29) == 1 <==> !borrow) <==> borrow || Flag(s.regs, 29) == 1)
  {
    FlagsOf(s, opcode, rd, rn, operand, 0);
  }

  // ----- The logical operations -----

  predicate Logical(opcode: nat) {
    opcode in {0, 1, 12, 13, 14, 15}
  }

  /** Bit by bit: AND, EOR, ORR, MOV, BIC, MVN. */
  function LogicalBit(opcode: nat, x: nat, y: nat): nat
    requires x <= 1 && y <= 1
  {
    match opcode
    case 0 => if x == 1 && y == 1 then 1 else 0
    case 1 => if x == y then 0 else 1
    case 12 => if x == 1 || y == 1 then 1 else 0
    case 13 => y
    case 14 => if x == 1 && y == 0 then 1 else 0
    case _ => 1 - y
  }

  /** The word each logical opcode computes. */
  function LogicalWord(opcode: nat, x: word, y: word): word
    requires Logical(opcode)
  {
    match opcode
    case 0 => And(x, y)
    case 1 => Xor(x, y)
    case 12 => Or(x, y)
    case 13 => y
    case 14 => And(x, Not(y))
    case _ => Not(y)
  }

  lemma LogicalBits(opcode: nat, x: word, y: word, i: nat)
    requires Logical(opcode) && i < 32
    ensures Bit(LogicalWord(opcode, x, y), i) == LogicalBit(opcode, Bit(x, i), Bit(y, i))
  {
    match opcode
    case 0 => GateBit(AndGate, x, y, And(x, y), i);
    case 1 => GateBit(XorGate, x, y, Xor(x, y), i);
    case 12 => GateBit(OrGate, x, y, Or(x, y), i);
    case 13 =>
    case 14 =>
      calc {
        Bit(LogicalWord(14, x, y), i);
        Bit(And(x, Not(y)), i);
        { BitOfNot(y, i); AndWithInverse(x, y, Not(y), i); }
        LogicalBit(14, Bit(x, i), Bit(y, i));
      }
    case _ => BitOfNot(y, i);
  }

  lemma LogicalResult(opcode: nat, x: word, y: word, c: nat, i: nat)
    requires Logical(opcode) && i < 32
    ensures Bit(Alu(opcode, x, y, c), i) == LogicalBit(opcode, Bit(x, i), Bit(y, i))
  {
    calc {
      Bit(Alu(opcode, x, y, c), i);
      { assert Alu(opcode, x, y, c) == LogicalWord(opcode, x, y); }
      Bit(LogicalWord(opcode, x, y), i);
      { LogicalBits(opcode, x, y, i); }
      LogicalBit(opcode, Bit(x, i), Bit(y, i));
    }
  }

  lemma AndWithInverse(x: word, y: word, inverse: word, i: nat)
    requires Bit(inverse, i) == 1 - Bit(y, i)
    ensures Bit(And(x, inverse), i) == LogicalBit(14, Bit(x, i), Bit(y, i))
  {
    GateBit(AndGate, x, inverse, And(x, inverse), i);
  }

  lemma GateBit(g: Gate, x: word, y: word, z: word, i: nat)
    requires z == Combine(g, x, y)
    ensures Bit(z, i) == Apply(g, Bit(x, i), Bit(y, i))
  {
    BitOfCombine(g, x, y, i);
  }

  lemma CarryIsBit(regs: seq<word>, ins: word)
    requires |regs| == SLOTS && ShiftDefined(regs, ins)
    ensures ShifterOperand(regs, ins, Operand(0, 0)).carry <= 1
  {
  }

  /** What a logical opcode does to the state, given its operand and carry-out: Rd gets the operation bit
      by bit, N and Z describe it, C is the carry-out, V and the 28 low CPSR bits stay, and so does the rest. */
  ghost predicate LogicalEffect(s: State, t: State, opcode: nat, rd: nat, x: word, operand: word, carry: nat)
    requires s.Valid() && rd < PC
  {
    && |t.regs| == SLOTS
    && t == s.(regs := s.regs[rd := t.regs[rd]][CPSR := t.regs[CPSR]])
    && (forall i: nat :: i < 32 ==> Bit(t.regs[rd], i) == LogicalBit(opcode, Bit(x, i), Bit(operand, i)))
    && Flag(t.regs, 31) == Bit(t.regs[rd], 31)
    && Flag(t.regs, 30) == (if t.regs[rd] == 0 then 1 else 0)
    && Flag(t.regs, 29) == carry
    && Flag(t.regs, 28) == Flag(s.regs, 28)
    && forall i: nat :: i < 28 ==> Bit(t.regs[CPSR], i) == Bit(s.regs[CPSR], i)
  }

  lemma LogicalBytes(opcode: nat, x: word, operand: word, c: nat, carry: byte, value: word)
    requires Logical(opcode) && carry <= 1
    ensures FlagBytes(opcode, x, operand, c, carry, value) == (carry, UNAFFECTED)
    ensures FlagAfter(carry, c) == carry
  {
  }

  lemma LogicalComputed(s: State, opcode: nat, rd: nat, rn: nat, operand: word, carry: byte)
    requires s.Valid() && Logical(opcode) && rd < PC && rn < 16 && carry <= 1
    ensures LogicalEffect(s, Computed(s, opcode, 1, rd, rn, operand, carry),
                          opcode, rd, ReadReg(s.regs, rn), operand, carry)
  {
    var x, c := ReadReg(s.regs, rn), Flag(s.regs, 29);
    var value := Alu(opcode, x, operand, c);
    FlagsOf(s, opcode, rd, rn, operand, carry);
    LogicalBytes(opcode, x, operand, c, carry, value);
    TopBit(value);
    forall i: nat | i < 32
      ensures Bit(value, i) == LogicalBit(opcode, Bit(x, i), Bit(operand, i))
    {
      LogicalResult(opcode, x, operand, c, i);
    }
  }

  /** So for every AND, EOR, ORR, MOV, BIC and MVN word with S=1 and Rd other than R15. */
  lemma LogicalInstruction(s: State, ins: word)
    requires ShifterDefined(s, ins) && Logical(Opcode(ins)) && GetBit(ins, 20) == 1 && Rd(ins) != PC
    ensures var o := ShifterOperand(s.regs, ins, Operand(0, 0));
            && Process(s, ins).Returned?
            && LogicalEffect(s, Process(s, ins).value,
                             Opcode(ins), Rd(ins), ReadReg(s.regs, Rn(ins)), o.value, o.carry)
  {
    var o := ShifterOperand(s.regs, ins, Operand(0, 0));
    CarryIsBit(s.regs, ins);
    LogicalComputed(s, Opcode(ins), Rd(ins), Rn(ins), o.value, o.carry);
  }

  // ----- All sixteen opcodes -----

  /** Nothing but the slots listed has changed. */
  ghost predicate OnlyChanges(s: State, t: State, slots: set<nat>) {
    && t.mem == s.mem && t.mode == s.mode && t.be == s.be && |t.regs| == |s.regs|
    && forall r: nat :: r < |s.regs| && r !in slots ==> t.regs[r] == s.regs[r]
  }

  lemma ComputedFrame(s: State, opcode: nat, S: nat, rd: nat, rn: nat, operand: word, carry: byte)
    requires s.Valid() && opcode < 16 && rd < 16 && rn < 16
    ensures OnlyChanges(s, Computed(s, opcode, S, rd, rn, operand, carry), if S == 1 then {rd, CPSR} else {rd})
  {
  }

  lemma ComparedFrame(s: State, opcode: nat, rn: nat, operand: word, carry: byte)
    requires s.Valid() && opcode < 16 && rn < 16
    ensures var o := Compared(s, opcode, rn, operand, carry);
            && (o.Exited? <==>
                  Unbanked(s.mode) && Alu(opcode, ReadReg(s.regs, rn), operand, Flag(s.regs, 29)) % 0x100 > 15)
            && (o.Returned? ==> OnlyChanges(s, o.value, {CPSR}))
  {
  }

  /** Any data-processing instruction touches at most Rd (not for a compare) and the CPSR (only with S=1
      or for a compare), and ends the program only for a compare, in USR or SYS, whose result's low byte is above 15. */
  lemma ProcessFrame(s: State, ins: word)
    requires ShifterDefined(s, ins)
    ensures var operand := ShifterOperand(s.regs, ins, Operand(0, 0)).value;
            Process(s, ins).Exited? <==>
            && Compares(Opcode(ins)) && Unbanked(s.mode)
            && Alu(Opcode(ins), ReadReg(s.regs, Rn(ins)), operand, Flag(s.regs, 29)) % 0x100 > 15
    ensures Process(s, ins).Returned? ==>
              OnlyChanges(s, Process(s, ins).value,
                          if Compares(Opcode(ins)) then {CPSR}
                          else if GetBit(ins, 20) == 1 then {Rd(ins), CPSR}
                          else {Rd(ins)})
  {
    var o := ShifterOperand(s.regs, ins, Operand(0, 0));
    if Compares(Opcode(ins)) {
      ComparedFrame(s, Opcode(ins), Rn(ins), o.value, o.carry);
    } else {
      ComputedFrame(s, Opcode(ins), GetBit(ins, 20), Rd(ins), Rn(ins), o.value, o.carry);
    }
  }

  lemma WrittenFlags(s: State, number: byte, flagC: byte, flagV: byte)
    requires s.Valid() && WriteFlagsOutcome(s, number, flagC, flagV).Returned?
    ensures var t, r := WriteFlagsOutcome(s, number, flagC, flagV).value, ReadAnyOutcome(s, number).value;
            && t.Valid()
            && Flag(t.regs, 31) == (if Signed(r) < 0 then 1 else 0)
            && Flag(t.regs, 30) == (if r == 0 then 1 else 0)
            && Flag(t.regs, 29) == FlagAfter(flagC, Flag(s.regs, 29))
            && Flag(t.regs, 28) == FlagAfter(flagV, Flag(s.regs, 28))
  {
    var r := ReadAnyOutcome(s, number).value;
    FlagsMeaning(s.regs[CPSR], r, flagC, flagV, 31);
    FlagsMeaning(s.regs[CPSR], r, flagC, flagV, 30);
    FlagsMeaning(s.regs[CPSR], r, flagC, flagV, 29);
    FlagsMeaning(s.regs[CPSR], r, flagC, flagV, 28);
  }

  /** A compare takes N and Z from the register numbered by the low byte of its result. */
  lemma CompareDescribesRegister(s: State, opcode: nat, rn: nat, operand: word, carry: byte)
    requires s.Valid() && Compares(opcode) && rn < 16 && Compared(s, opcode, rn, operand, carry).Returned?
    ensures var t := Compared(s, opcode, rn, operand, carry).value;
            var value := Alu(opcode, ReadReg(s.regs, rn), operand, Flag(s.regs, 29));
            var r := ReadAnyOutcome(s, value % 0x100).value;
            && t.Valid()
            && Flag(t.regs, 31) == (if Signed(r) < 0 then 1 else 0)
            && Flag(t.regs, 30) == (if r == 0 then 1 else 0)
  {
    var x, c := ReadReg(s.regs, rn), Flag(s.regs, 29);
    var value := Alu(opcode, x, operand, c);
    var bytes := FlagBytes(opcode, x, operand, c, carry, value);
    ComparedBytes(s, opcode, rn, operand, carry, value, bytes.0, bytes.1);
    WrittenFlags(s, value % 0x100, bytes.0, bytes.1);
  }

  /** What reading register number `d` gives: R15 is read 4 further on, numbers past it give the slot if the
      mode admits it and 0 if not. */
  function Numbered(s: State, d: byte): word
    requires s.Valid()
  {
    if d < PC then s.regs[d]
    else if d == PC then PcRead(s.regs[PC])
    else if Admits(s.mode, d) then s.regs[d]
    else 0
  }

  lemma ReadNumbered(s: State, d: byte)
    requires s.Valid() && ReadAnyOutcome(s, d).Returned?
    ensures ReadAnyOutcome(s, d).value == Numbered(s, d)
  {
  }

  lemma ZeroNamesR0(s: State, value: word)
    requires s.Valid()
    ensures value == 0 ==> Numbered(s, value % 0x100) == s.regs[0]
  {
  }

  /** So, for a result that is 0, Z is right exactly when R0 is 0; for any other, exactly when the register with
      the number in its low byte is not; and N exactly when that register has the result's sign. */
  lemma WhereCompareSignsAreRight(s: State, opcode: nat, rn: nat, operand: word, carry: byte)
    requires s.Valid() && Compares(opcode) && rn < 16 && Compared(s, opcode, rn, operand, carry).Returned?
    ensures var t := Compared(s, opcode, rn, operand, carry).value;
            var value := Alu(opcode, ReadReg(s.regs, rn), operand, Flag(s.regs, 29));
            var r := Numbered(s, value % 0x100);
            && t.Valid()
            && ((Flag(t.regs, 30) == 1 <==> value == 0) <==> if value == 0 then s.regs[0] == 0 else r != 0)
            && ((Flag(t.regs, 31) == 1 <==> Signed(value) < 0) <==> (Signed(r) < 0 <==> Signed(value) < 0))
  {
    var value := Alu(opcode, ReadReg(s.regs, rn), operand, Flag(s.regs, 29));
    CompareDescribesRegister(s, opcode, rn, operand, carry);
    ReadNumbered(s, value % 0x100);
    ZeroNamesR0(s, value);
  }

  lemma ComparedCarryOverflow(s: State, opcode: nat, rn: nat, operand: word, carry: byte)
    requires s.Valid() && Compares(opcode) && rn < 16 && Compared(s, opcode, rn, operand, carry).Returned?
    ensures var x, c, t := ReadReg(s.regs, rn), Flag(s.regs, 29), Compared(s, opcode, rn, operand, carry).value;
            var bytes := FlagBytes(opcode, x, operand, c, carry, Alu(opcode, x, operand, c));
            && t.Valid()
            && Flag(t.regs, 29) == FlagAfter(bytes.0, c)
            && Flag(t.regs, 28) == FlagAfter(bytes.1, Flag(s.regs, 28))
  {
    var x, c := ReadReg(s.regs, rn), Flag(s.regs, 29);
    var value := Alu(opcode, x, operand, c);
    var bytes := FlagBytes(opcode, x, operand, c, carry, value);
    ComparedBytes(s, opcode, rn, operand, carry, value, bytes.0, bytes.1);
    WrittenFlags(s, value % 0x100, bytes.0, bytes.1);
  }

  /** TST and TEQ leave C and V as they should. */
  lemma TestCarryAndOverflow(s: State, opcode: nat, rn: nat, operand: word, carry: byte)
    requires s.Valid() && 8 <= opcode <= 9 && rn < 16 && carry <= 1
    requires Compared(s, opcode, rn, operand, carry).Returned?
    ensures var t := Compared(s, opcode, rn, operand, carry).value;
            t.Valid() && Flag(t.regs, 29) == carry && Flag(t.regs, 28) == Flag(s.regs, 28)
  {
    ComparedCarryOverflow(s, opcode, rn, operand, carry);
  }

  /** CMP's V is always right; its C, as SUB's, exactly on a borrow or when C was set. */
  lemma CmpCarryAndOverflow(s: State, rn: nat, operand: word)
    requires s.Valid() && rn < 16 && Compared(s, 10, rn, operand, 0).Returned?
    ensures var x, t := ReadReg(s.regs, rn), Compared(s, 10, rn, operand, 0).value;
            && t.Valid()
            && (Flag(t.regs, 28) == 1 <==> !Fits(Difference(x, operand)))
            && ((Flag(t.regs, 29) == 1 <==> x >= operand) <==> x < operand || Flag(s.regs, 29) == 1)
  {
    var x, c := ReadReg(s.regs, rn), Flag(s.regs, 29);
    ComparedCarryOverflow(s, 10, rn, operand, 0);
    DifferenceBytes(x, operand, c, Flag(s.regs, 28), 0, Alu(10, x, operand, c));
    OverflowOfDifference(x, operand);
  }

  /** CMN's C and V are right exactly where ADD's are. */
  lemma CmnCarryAndOverflow(s: State, rn: nat, operand: word)
    requires s.Valid() && rn < 16 && Compared(s, 11, rn, operand, 0).Returned?
    ensures var x, t := ReadReg(s.regs, rn), Compared(s, 11, rn, operand, 0).value;
            && t.Valid()
            && ((Flag(t.regs, 29) == 1 <==> x as int + operand as int >= 0x1_0000_0000)
                <==> x as int + operand as int < 0x1_0000_0000)
            && ((Flag(t.regs, 28) == 1 <==> !Fits(Signed(x) + Signed(operand)))
                <==> (Signed(x) < 0 <==> Signed(operand) >= 0))
  {
    var x, c := ReadReg(s.regs, rn), Flag(s.regs, 29);
    ComparedCarryOverflow(s, 11, rn, operand, 0);
    SumBytes(11, x, operand, c, Flag(s.regs, 28), Alu(11, x, operand, c));
    OverflowOfSum(x, operand);
  }

  /** CMP of equal operands looks at R0, so Z is set afterwards exactly when R0 is 0. */
  lemma CmpOfEqualOperands(s: State, rn: nat, carry: byte)
    requires s.Valid() && rn < 16
    ensures var o := Compared(s, 10, rn, ReadReg(s.regs, rn), carry);
            o.Returned? && o.value.Valid() && (Flag(o.value.regs, 30) == 1 <==> s.regs[0] == 0)
  {
    var x, c := ReadReg(s.regs, rn), Flag(s.regs, 29);
    var bytes := FlagBytes(10, x, x, c, carry, 0);
    ComparedBytes(s, 10, rn, x, carry, 0, bytes.0, bytes.1);
    WrittenFlags(s, 0, bytes.0, bytes.1);
  }
}
