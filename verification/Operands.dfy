/** The shifter operand and its carry-out for every data-processing word, in arithmetic on the registers the
    word names.  LSR, ASR and ROR by less than 32 shift by 1, 2 and 3 places, as the code does. */
module Operands {
  import opened Bits
  import opened Util
  import opened Registers
  import opened ArmCore
  import opened Fields
  import opened Shifter

  lemma TopDigit(x: word)
    ensures GetBit(x, 31) == x / 0x8000_0000 && GetBit(x, 31) == (if Signed(x) < 0 then 1 else 0)
  {
    TopBit(x);
  }

  lemma OneDigit(x: word, i: nat)
    requires i < 32
    ensures GetBit(x, i) == x / Pow2(i) % 2
  {
    BitIsDigit(x, i);
  }

  // ----- Immediates -----

  lemma RotatedValue(x: word, rotate: nat, c: nat)
    requires rotate < 16 && c <= 1
    ensures var o, r := ByRotatedImmediate(x, rotate, c), 2 * rotate;
            && o.value == (if r == 0 then x else x / Pow2(r) + x % Pow2(r) * Pow2(32 - r))
            && o.carry == if r == 0 then c else o.value / 0x8000_0000
  {
    if rotate == 0 {
      RotationByZero(x);
    } else {
      RorMeaning(x, 2 * rotate);
      TopDigit(Ror(x, 2 * rotate));
    }
  }

  /** Bit 25 set: the 8 low bits, rotated right by twice bits 11..8; the carry-out is C for rotation 0 and the
      operand's top bit otherwise. */
  lemma OperandImmediate(regs: seq<word>, ins: word)
    requires |regs| == SLOTS && GetBit(ins, 25) == 1
    ensures ShiftDefined(regs, ins)
    ensures var x, r, o := ins % 0x100, 2 * (ins / 0x100 % 0x10), ShifterOperand(regs, ins, Operand(0, 0));
            && o.value == (if r == 0 then x else x / Pow2(r) + x % Pow2(r) * Pow2(32 - r))
            && o.carry == if r == 0 then Flag(regs, 29) else o.value / 0x8000_0000
  {
    ImmediateDigits(ins);
    RotatedValue(Immediate8(ins), Rs(ins), Flag(regs, 29));
  }

  lemma ImmediateDigits(ins: word)
    ensures Immediate8(ins) == ins % 0x100 && Rs(ins) == ins / 0x100 % 0x10
  {
    FieldSizes();
    LowField(ins, 8);
    GetBitsMacro(ins, 11, 8);
  }

  // ----- Shifts by an immediate -----

  lemma LslImmediateValue(rm: word, a: nat, c: nat)
    requires a < 32 && c <= 1
    ensures ByImmediateShift(LSL, rm, a, c)
         == Operand(Wrap(rm * Pow2(a)), if a == 0 then c else rm / Pow2(32 - a) % 2)
  {
    ImmediateLsl(rm, a, c);
    ShiftMeaning(rm, a);
    if a > 0 {
      OneDigit(rm, 32 - a);
    }
  }

  lemma LsrImmediateValue(rm: word, a: nat, c: nat)
    requires a < 32 && c <= 1
    ensures ByImmediateShift(LSR, rm, a, c)
         == if a == 0 then Operand(0, rm / 0x8000_0000) else Operand(rm / 2, rm / Pow2(a - 1) % 2)
  {
    ImmediateLsr(rm, a, c);
    TopDigit(rm);
    if a > 0 {
      OneDigit(rm, a - 1);
      ShiftByCode(rm);
    }
  }

  lemma AsrImmediateValue(rm: word, a: nat, c: nat)
    requires a < 32 && c <= 1
    ensures ByImmediateShift(ASR, rm, a, c)
         == if a == 0 then Operand(if Signed(rm) < 0 then 0xFFFF_FFFF else 0, rm / 0x8000_0000)
            else Operand(Wrap(Signed(rm) / 4), rm / Pow2(a - 1) % 2)
  {
    ImmediateAsr(rm, a, c);
    TopDigit(rm);
    if a > 0 {
      OneDigit(rm, a - 1);
      ShiftByCode(rm);
    }
  }

  lemma RorImmediateValue(rm: word, a: nat, c: nat)
    requires a < 32 && c <= 1
    ensures ByImmediateShift(ROR, rm, a, c)
         == if a == 0 then Operand((c * 0x1_0000_0000 + rm) / 2, rm % 2)
            else Operand(rm / 8 + rm % 8 * 0x2000_0000, rm / Pow2(a - 1) % 2)
  {
    ImmediateRor(rm, a, c);
    if a == 0 {
      RrxMeaning(c, rm);
    } else {
      OneDigit(rm, a - 1);
      ShiftByCode(rm);
    }
  }

  /** lsr by 1, asr by 2 and ror by 3. */
  lemma ShiftByCode(rm: word)
    ensures Lsr(rm, LSR) == rm / 2
    ensures Asr(rm, ASR) == Wrap(Signed(rm) / 4)
    ensures Ror(rm, ROR) == rm / 8 + rm % 8 * 0x2000_0000
  {
    ShiftMeaning(rm, 1);
    AsrMeaning(rm, 2);
    RorMeaning(rm, 3);
    FieldSizes();
    assert Pow2(1) == 2;
    Pow2Add(24, 5);
  }

  /** Operand and carry-out for a shift of `rm` by the amount `a` of an immediate form. */
  function ImmediateShifted(kind: nat, rm: word, a: nat, c: nat): Operand
    requires a < 32 && c <= 1
  {
    var lastOut := if a == 0 then 0 else rm / Pow2(a - 1) % 2;
    if kind == 0 then Operand(Wrap(rm * Pow2(a)), if a == 0 then c else rm / Pow2(32 - a) % 2)
    else if kind == 1 then if a == 0 then Operand(0, rm / 0x8000_0000) else Operand(rm / 2, lastOut)
    else if kind == 2 then
      if a == 0 then Operand(if Signed(rm) < 0 then 0xFFFF_FFFF else 0, rm / 0x8000_0000)
      else Operand(Wrap(Signed(rm) / 4), lastOut)
    else if a == 0 then Operand((c * 0x1_0000_0000 + rm) / 2, rm % 2)
    else Operand(rm / 8 + rm % 8 * 0x2000_0000, lastOut)
  }

  lemma ImmediateShiftedIs(kind: nat, rm: word, a: nat, c: nat)
    requires kind < 4 && a < 32 && c <= 1
    ensures ByImmediateShift(kind, rm, a, c) == ImmediateShifted(kind, rm, a, c)
  {
    if kind == LSL {
      LslImmediateValue(rm, a, c);
    } else if kind == LSR {
      LsrImmediateValue(rm, a, c);
    } else if kind == ASR {
      AsrImmediateValue(rm, a, c);
    } else {
      RorImmediateValue(rm, a, c);
    }
  }

  /** Bits 25 and 4 clear: Rm shifted by the amount in bits 11..7. */
  lemma OperandByImmediate(regs: seq<word>, ins: word)
    requires |regs| == SLOTS && GetBit(ins, 25) == 0 && GetBit(ins, 4) == 0
    ensures ShiftDefined(regs, ins)
    ensures ShifterOperand(regs, ins, Operand(0, 0))
         == ImmediateShifted(ShiftCode(ins), ReadReg(regs, Rm(ins)), ShiftAmount(ins), Flag(regs, 29))
  {
    ImmediateShiftedIs(ShiftCode(ins), ReadReg(regs, Rm(ins)), ShiftAmount(ins), Flag(regs, 29));
  }

  // ----- Shifts by a register -----

  lemma LslRegisterValue(rm: word, a: nat, c: nat)
    requires 0 < a < 256 && c <= 1
    ensures var product: int := rm * Pow2(a);
            ByRegisterShift(LSL, rm, a, c) == Operand(Wrap(product), product / 0x1_0000_0000 % 2)
  {
    LslOperandAndCarry(rm, a, c);
    Pow2At32();
    BitIsDigit(Doubled(rm, a), 32);
  }

  lemma LsrRegisterValue(rm: word, a: nat, c: nat)
    requires 0 < a < 256 && c <= 1
    ensures ByRegisterShift(LSR, rm, a, c)
         == if a < 32 then Operand(rm / 2, rm / Pow2(a - 1) % 2)
            else Operand(0, if a == 32 then rm / 0x8000_0000 else 0)
  {
    RegisterLsr(rm, a, c);
    TopDigit(rm);
    if a < 32 {
      OneDigit(rm, a - 1);
      ShiftByCode(rm);
    }
  }

  lemma AsrRegisterValue(rm: word, a: nat, c: nat)
    requires 0 < a < 256 && c <= 1
    ensures ByRegisterShift(ASR, rm, a, c)
         == if a < 32 then Operand(Wrap(Signed(rm) / 4), rm / Pow2(a - 1) % 2)
            else Operand(if Signed(rm) < 0 then 0xFFFF_FFFF else 0, rm / 0x8000_0000)
  {
    RegisterAsr(rm, a, c);
    TopDigit(rm);
    if a < 32 {
      OneDigit(rm, a - 1);
      ShiftByCode(rm);
    }
  }

  lemma RorRegisterValue(rm: word, a: nat, c: nat)
    requires 0 < a < 256 && c <= 1 && a % 32 != 0
    ensures ByRegisterShift(ROR, rm, a, c)
         == Operand(rm / 8 + rm % 8 * 0x2000_0000, rm / Pow2(a % 32 - 1) % 2)
  {
    RegisterRor(rm, a, c);
    OneDigit(rm, a % 32 - 1);
    ShiftByCode(rm);
  }

  lemma NoRegisterShift(kind: nat, rm: word, c: nat)
    requires kind < 4 && c <= 1
    ensures ByRegisterShift(kind, rm, 0, c) == Operand(rm, c)
  {
  }

  /** Operand and carry-out for a shift of `rm` by `a`, the low byte of a register. */
  function RegisterShifted(kind: nat, rm: word, a: nat, c: nat): Operand
    requires a < 256 && c <= 1
  {
    var lastOut := if 0 < a < 32 then rm / Pow2(a - 1) % 2 else 0;
    var product: int := Doubled(rm, a);
    if a == 0 then Operand(rm, c)
    else if kind == 0 then Operand(Wrap(product), product / 0x1_0000_0000 % 2)
    else if kind == 1 then
      if a < 32 then Operand(rm / 2, lastOut) else Operand(0, if a == 32 then rm / 0x8000_0000 else 0)
    else if kind == 2 then
      if a < 32 then Operand(Wrap(Signed(rm) / 4), lastOut)
      else Operand(if Signed(rm) < 0 then 0xFFFF_FFFF else 0, rm / 0x8000_0000)
    else Operand(rm / 8 + rm % 8 * 0x2000_0000, if a % 32 == 0 then 0 else rm / Pow2(a % 32 - 1) % 2)
  }

  lemma RegisterShiftedIs(kind: nat, rm: word, a: nat, c: nat)
    requires kind < 4 && a < 256 && c <= 1 && (kind == ROR && a % 32 == 0 ==> a == 0)
    ensures ByRegisterShift(kind, rm, a, c) == RegisterShifted(kind, rm, a, c)
  {
    DoubledIsProduct(rm, a);
    if a == 0 {
      NoRegisterShift(kind, rm, c);
    } else if kind == LSL {
      LslRegisterValue(rm, a, c);
    } else if kind == LSR {
      LsrRegisterValue(rm, a, c);
    } else if kind == ASR {
      AsrRegisterValue(rm, a, c);
    } else {
      RorRegisterValue(rm, a, c);
    }
  }

  /** Bits 25 and 7 clear and bit 4 set: Rm shifted by a, the low byte of the register in bits 11..8.  For a = 0
      every kind leaves Rm and C. */
  lemma OperandByRegister(regs: seq<word>, ins: word)
    requires |regs| == SLOTS && GetBit(ins, 25) == 0 && GetBit(ins, 4) == 1 && GetBit(ins, 7) == 0
    requires ShiftDefined(regs, ins)
    ensures var rm, a := ReadReg(regs, Rm(ins)), ReadReg(regs, Rs(ins)) % 0x100;
            && ShifterOperand(regs, ins, Operand(0, 0)) == RegisterShifted(ShiftCode(ins), rm, a, Flag(regs, 29))
            && (ShiftCode(ins) == 3 && a % 32 == 0 ==> a == 0)
            && Doubled(rm, a) == rm * Pow2(a)
  {
    var rm, a := ReadReg(regs, Rm(ins)), ReadReg(regs, Rs(ins)) % 0x100;
    assert a == RsAmount(regs, ins);
    DoubledIsProduct(rm, a);
    RegisterShiftedIs(ShiftCode(ins), rm, a, Flag(regs, 29));
  }

  /** The code leaves out ROR by a register with a multiple of 32 above 0, and no other word. */
  lemma WhichAreDefined(regs: seq<word>, ins: word)
    requires |regs| == SLOTS
    ensures var a := ReadReg(regs, Rs(ins)) % 0x100;
            !ShiftDefined(regs, ins) <==>
            && GetBit(ins, 25) == 0 && GetBit(ins, 4) == 1 && GetBit(ins, 7) == 0
            && ShiftCode(ins) == 3 && a > 0 && a % 32 == 0
  {
  }

  /** Bit 25 clear and bits 7 and 4 set, as in multiplies: the operand and the carry-out are 0. */
  lemma OperandOfOthers(regs: seq<word>, ins: word)
    requires |regs| == SLOTS && GetBit(ins, 25) == 0 && GetBit(ins, 4) == 1 && GetBit(ins, 7) == 1
    ensures ShiftDefined(regs, ins) && ShifterOperand(regs, ins, Operand(0, 0)) == Operand(0, 0)
  {
  }
}
