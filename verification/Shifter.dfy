/** write_shift_operand_sco of arm_data_processing.c: the shifter operand and its carry-out. */
module Shifter {
  import opened Bits
  import opened Util
  import opened Registers
  import opened ArmCore
  import opened Fields

  // ----- What section A5.1 asks for -----

  /** The last bit shifted out of `x`, one formula for each kind and any amount. */
  function LastOut(kind: nat, x: word, amount: nat, c: nat): (r: nat)
    requires c <= 1
    ensures r <= 1
  {
    if amount == 0 then c
    else if kind == LSL then Halved(Doubled(x, amount), 32) % 2
    else if kind == LSR then Halved(x, amount - 1) % 2
    else if kind == ASR then Halved(Signed(x), amount - 1) % 2
    else Halved(x, (amount - 1) % 32) % 2
  }

  /** The shifted value. */
  function Shifted(kind: nat, x: word, amount: nat): word
    requires amount < 256
  {
    if kind == LSL then Wrap(Doubled(x, amount))
    else if kind == LSR then Halved(x, amount)
    else if kind == ASR then Wrap(Halved(Signed(x), amount))
    else Ror(x, amount % 32)
  }

  lemma {:induction false} HalvedParity(x: nat, k: nat)
    ensures Halved(x, k) % 2 == Bit(x, k)
    decreases k
  {
    if k > 0 {
      HalvedParity(x / 2, k - 1);
    }
  }

  lemma EvenGap(a: int, b: int)
    ensures (a - 2 * b) % 2 == a % 2
  {
  }

  lemma HalvedNegative(x: word, k: nat)
    requires k <= 31 && x >= 0x8000_0000
    ensures Halved(Signed(x), k) == Halved(x, k) - 2 * Pow2(31 - k)
  {
    Pow2At32();
    HalvedMinus(x, 32, k);
    assert Pow2(32 - k) == 2 * Pow2(31 - k);
  }

  lemma HalvedSigned(x: word, k: nat)
    requires k <= 31
    ensures Halved(Signed(x), k) % 2 == Bit(x, k)
  {
    HalvedParity(x, k);
    if x >= 0x8000_0000 {
      HalvedNegative(x, k);
      EvenGap(Halved(x, k), Pow2(31 - k));
    }
  }

  lemma {:induction false} HalvedOfDoubled(x: nat, s: nat, k: nat)
    ensures Halved(Doubled(x, s), k) == if k <= s then Doubled(x, s - k) else Halved(x, k - s)
    decreases k
  {
    if k > 0 && s > 0 {
      assert Doubled(x, s) / 2 == Doubled(x, s - 1);
      HalvedOfDoubled(x, s - 1, k - 1);
    }
  }

  lemma DoubledParity(x: nat, s: nat)
    requires s > 0
    ensures Doubled(x, s) % 2 == 0
  {
    var h: int := Doubled(x, s - 1);
    EvenGap(0, -h);
  }

  lemma LslCarry(x: word, amount: nat)
    requires amount > 0
    ensures LastOut(LSL, x, amount, 0) == if amount <= 32 then Bit(x, 32 - amount) else 0
  {
    HalvedOfDoubled(x, amount, 32);
    if amount <= 32 {
      HalvedParity(x, 32 - amount);
    } else {
      DoubledParity(x, amount - 32);
    }
  }

  lemma LsrCarry(x: word, amount: nat)
    requires amount > 0
    ensures LastOut(LSR, x, amount, 0) == if amount <= 32 then Bit(x, amount - 1) else 0
  {
    HalvedParity(x, amount - 1);
    if amount > 32 {
      Pow2At32();
      BitAboveSize(x, 32, amount - 1);
    }
  }

  lemma AsrCarry(x: word, amount: nat)
    requires amount > 0
    ensures LastOut(ASR, x, amount, 0) == Bit(x, if amount <= 32 then amount - 1 else 31)
  {
    if amount <= 32 {
      HalvedSigned(x, amount - 1);
    } else {
      SignFill(x, amount - 1);
    }
  }

  lemma RorCarry(x: word, amount: nat)
    requires amount % 32 != 0
    ensures LastOut(ROR, x, amount, 0) == Bit(x, amount % 32 - 1)
  {
    assert (amount - 1) % 32 == amount % 32 - 1;
    HalvedParity(x, amount % 32 - 1);
  }

  lemma {:induction false} LslAway(x: word, amount: nat)
    requires amount >= 32
    ensures Wrap(Doubled(x, amount)) == 0
    decreases amount
  {
    if amount == 32 {
      Pow2At32();
      DoubledIsProduct(x, 32);
    } else {
      LslAway(x, amount - 1);
      WrapTwice(Doubled(x, amount - 1));
    }
  }

  lemma LsrAway(x: word, amount: nat)
    requires amount >= 32
    ensures Halved(x, amount) == 0
  {
    Pow2At32();
    HalvedPastSign(x, 32, amount);
  }

  // ----- What the code computes -----

  /** shift_operation hands the shift code, not the amount, to lsr, asr and ror. */
  function ShiftOperation(value: word, shift: nat, shiftAmount: nat): word
    requires shift < 4 && 0 < shiftAmount < 32
  {
    if shift == LSL then Lsl(value, shiftAmount)
    else if shift == LSR then Lsr(value, shift)
    else if shift == ASR then Asr(value, shift)
    else Ror(value, shift)
  }

  datatype Operand = Operand(value: word, carry: byte)

  function ByImmediateShift(kind: nat, rm: word, imm: nat, c: nat): Operand
    requires kind < 4 && imm < 32 && c <= 1
  {
    if kind == LSL then Operand(Shifted(LSL, rm, imm), LastOut(LSL, rm, imm, c))
    else if imm > 0 then Operand(ShiftOperation(rm, kind, imm), LastOut(kind, rm, imm, c))
    else if kind == ROR then Operand((c * 0x1_0000_0000 + rm) / 2, rm % 2)
    else Operand(Shifted(kind, rm, 32), LastOut(kind, rm, 32, c))
  }

  function ByRegisterShift(kind: nat, rm: word, amount: nat, c: nat): Operand
    requires kind < 4 && amount < 256 && c <= 1
    requires kind == ROR && amount % 32 == 0 ==> amount == 0
  {
    if kind == ROR && amount > 0 then Operand(ShiftOperation(rm, ROR, amount % 32), LastOut(ROR, rm, amount, c))
    else if (kind == LSR || kind == ASR) && 0 < amount < 32 then
      Operand(ShiftOperation(rm, kind, amount), LastOut(kind, rm, amount, c))
    else Operand(if amount == 0 then rm else Shifted(kind, rm, amount), LastOut(kind, rm, amount, c))
  }

  /** An 8-bit value rotated by an even amount; the carry-out is bit 31 unless the amount is 0. */
  function ByRotatedImmediate(imm8: word, rotate: nat, c: nat): Operand
    requires rotate < 16 && c <= 1
  {
    Operand(Ror(imm8, 2 * rotate), if rotate == 0 then c else Bit(Ror(imm8, 2 * rotate), 31))
  }

  /** For ROR by a register the code reads bit Rs[4:0]-1, so Rs[4:0] = 0 needs Rs[7:0] = 0. */
  predicate ShiftDefined(regs: seq<word>, ins: word)
    requires |regs| == SLOTS
  {
    (GetBit(ins, 25) == 0 && GetBit(ins, 4) == 1 && GetBit(ins, 7) == 0 && ShiftCode(ins) == ROR)
    ==> (RsAmount(regs, ins) % 32 == 0 ==> RsAmount(regs, ins) == 0)
  }

  function RsAmount(regs: seq<word>, ins: word): nat
    requires |regs| == SLOTS
  {
    ReadReg(regs, Rs(ins)) % 0x100
  }

  /** Words with bits 25, 7 and 4 at 0, 1, 1 leave both results as they were. */
  function ShifterOperand(regs: seq<word>, ins: word, initial: Operand): Operand
    requires |regs| == SLOTS && ShiftDefined(regs, ins)
  {
    var c := Flag(regs, 29);
    if GetBit(ins, 25) == 1 then ByRotatedImmediate(Immediate8(ins), Rs(ins), c)
    else if GetBit(ins, 4) == 0 then ByImmediateShift(ShiftCode(ins), ReadReg(regs, Rm(ins)), ShiftAmount(ins), c)
    else if GetBit(ins, 7) == 0 then ByRegisterShift(ShiftCode(ins), ReadReg(regs, Rm(ins)), RsAmount(regs, ins), c)
    else initial
  }

  function Immediate8(ins: word): (r: word)
    ensures r < 0x100
  {
    FieldSizes();
    GetBits(ins, 7, 0)
  }

  // The branches of the immediate form, kind by kind.

  lemma ImmediateLsl(rm: word, imm: nat, c: nat)
    requires imm < 32 && c <= 1
    ensures ByImmediateShift(LSL, rm, imm, c) ==
            if imm == 0 then Operand(rm, c) else Operand(ShiftOperation(rm, LSL, imm), GetBit(rm, 32 - imm))
  {
    if imm > 0 {
      LslCarry(rm, imm);
    }
  }

  lemma ImmediateLsr(rm: word, imm: nat, c: nat)
    requires imm < 32 && c <= 1
    ensures ByImmediateShift(LSR, rm, imm, c) ==
            if imm == 0 then Operand(0, GetBit(rm, 31)) else Operand(ShiftOperation(rm, LSR, imm), GetBit(rm, imm - 1))
  {
    LsrCarry(rm, if imm == 0 then 32 else imm);
    LsrAway(rm, 32);
  }

  lemma ImmediateAsr(rm: word, imm: nat, c: nat)
    requires imm < 32 && c <= 1
    ensures ByImmediateShift(ASR, rm, imm, c) ==
            if imm == 0 then Operand(if GetBit(rm, 31) == 0 then 0 else 0xFFFF_FFFF, GetBit(rm, 31))
            else Operand(ShiftOperation(rm, ASR, imm), GetBit(rm, imm - 1))
  {
    AsrCarry(rm, if imm == 0 then 32 else imm);
    SignFill(rm, 32);
  }

  lemma ImmediateRor(rm: word, imm: nat, c: nat)
    requires imm < 32 && c <= 1
    ensures ByImmediateShift(ROR, rm, imm, c) ==
            if imm == 0 then Operand(Or(Lsl(c, 31), Lsr(rm, 1)), GetBit(rm, 0))
            else Operand(ShiftOperation(rm, ROR, imm), GetBit(rm, imm - 1))
  {
    if imm == 0 {
      RrxMeaning(c, rm);
    } else {
      RorCarry(rm, imm);
    }
  }

  method ImmediateShift(kind: nat, rm: word, shiftAmount: nat, flagC: nat) returns (operand: word, carry: byte)
    requires kind < 4 && shiftAmount < 32 && flagC <= 1
    ensures Operand(operand, carry) == ByImmediateShift(kind, rm, shiftAmount, flagC)
  {
    if kind == LSL {
      ImmediateLsl(rm, shiftAmount, flagC);
      operand := if shiftAmount == 0 then rm else ShiftOperation(rm, kind, shiftAmount);
      carry := if shiftAmount == 0 then flagC else GetBit(rm, 32 - shiftAmount);
    } else if kind == LSR {
      ImmediateLsr(rm, shiftAmount, flagC);
      operand := if shiftAmount == 0 then 0 else ShiftOperation(rm, kind, shiftAmount);
      carry := if shiftAmount == 0 then GetBit(rm, 31) else GetBit(rm, shiftAmount - 1);
    } else if kind == ASR {
      ImmediateAsr(rm, shiftAmount, flagC);
      if shiftAmount == 0 {
        operand := if GetBit(rm, 31) == 0 then 0 else 0xFFFF_FFFF;
        carry := GetBit(rm, 31);
      } else {
        operand := ShiftOperation(rm, kind, shiftAmount);
        carry := GetBit(rm, shiftAmount - 1);
      }
    } else {
      ImmediateRor(rm, shiftAmount, flagC);
      var x := Or(Lsl(flagC, 31), Lsr(rm, 1));
      operand := if shiftAmount == 0 then x else ShiftOperation(rm, kind, shiftAmount);
      carry := if shiftAmount == 0 then GetBit(rm, 0) else GetBit(rm, shiftAmount - 1);
    }
  }

  // The branches of the register form, kind by kind, for an amount that is not 0.

  lemma RegisterLsl(rm: word, amount: nat, c: nat)
    requires 0 < amount < 256 && c <= 1
    ensures ByRegisterShift(LSL, rm, amount, c) ==
            if amount < 32 then Operand(ShiftOperation(rm, LSL, amount), GetBit(rm, 32 - amount))
            else Operand(0, if amount == 32 then GetBit(rm, 0) else 0)
  {
    LslCarry(rm, amount);
    if amount >= 32 {
      LslAway(rm, amount);
    }
  }

  lemma RegisterLsr(rm: word, amount: nat, c: nat)
    requires 0 < amount < 256 && c <= 1
    ensures ByRegisterShift(LSR, rm, amount, c) ==
            if amount < 32 then Operand(ShiftOperation(rm, LSR, amount), GetBit(rm, amount - 1))
            else Operand(0, if amount == 32 then GetBit(rm, 31) else 0)
  {
    LsrCarry(rm, amount);
    if amount >= 32 {
      LsrAway(rm, amount);
    }
  }

  lemma RegisterAsr(rm: word, amount: nat, c: nat)
    requires 0 < amount < 256 && c <= 1
    ensures ByRegisterShift(ASR, rm, amount, c) ==
            if amount < 32 then Operand(ShiftOperation(rm, ASR, amount), GetBit(rm, amount - 1))
            else Operand(if GetBit(rm, 31) == 0 then 0 else 0xFFFF_FFFF, GetBit(rm, 31))
  {
    AsrCarry(rm, amount);
    if amount >= 32 {
      SignFill(rm, amount);
    }
  }

  lemma RegisterRor(rm: word, amount: nat, c: nat)
    requires 0 < amount < 256 && c <= 1 && amount % 32 != 0
    ensures ByRegisterShift(ROR, rm, amount, c) ==
            Operand(ShiftOperation(rm, ROR, amount % 32), GetBit(rm, amount % 32 - 1))
  {
    RorCarry(rm, amount);
  }

  /** `amount` is Rs[7:0] and `low` is Rs[4:0]. */
  method RegisterShift(kind: nat, rm: word, amount: nat, low: nat, flagC: nat) returns (operand: word, carry: byte)
    requires kind < 4 && amount < 256 && low == amount % 32 && flagC <= 1
    requires kind == ROR && amount % 32 == 0 ==> amount == 0
    ensures Operand(operand, carry) == ByRegisterShift(kind, rm, amount, flagC)
  {
    if amount == 0 {
      operand, carry := rm, flagC;
    } else if kind == LSL {
      RegisterLsl(rm, amount, flagC);
      if amount < 32 {
        operand, carry := ShiftOperation(rm, kind, amount), GetBit(rm, 32 - amount);
      } else if amount == 32 {
        operand, carry := 0, GetBit(rm, 0);
      } else {
        operand, carry := 0, 0;
      }
    } else if kind == LSR {
      RegisterLsr(rm, amount, flagC);
      if amount < 32 {
        operand, carry := ShiftOperation(rm, kind, amount), GetBit(rm, amount - 1);
      } else if amount == 32 {
        operand, carry := 0, GetBit(rm, 31);
      } else {
        operand, carry := 0, 0;
      }
    } else if kind == ASR {
      RegisterAsr(rm, amount, flagC);
      if amount < 32 {
        operand, carry := ShiftOperation(rm, kind, amount), GetBit(rm, amount - 1);
      } else {
        operand := if GetBit(rm, 31) == 0 then 0 else 0xFFFF_FFFF;
        carry := GetBit(rm, 31);
      }
    } else {
      RegisterRor(rm, amount, flagC);
      operand, carry := ShiftOperation(rm, kind, low), GetBit(rm, low - 1);
    }
  }

  lemma ModNest(x: nat)
    ensures x % 0x100 % 32 == x % 32
  {
  }

  lemma LowField(x: word, n: nat)
    requires 0 < n < 32
    ensures GetBits(x, n - 1, 0) == x % Pow2(n)
  {
    LowIsRemainder(x, n);
  }

  lemma RsFields(rs: word)
    ensures GetBits(rs, 7, 0) == rs % 0x100 && GetBits(rs, 4, 0) == GetBits(rs, 7, 0) % 32
  {
    FieldSizes();
    LowField(rs, 8);
    LowField(rs, 5);
    ModNest(rs);
  }

  lemma ZeroShiftField(ins: word)
    requires GetBits(ins, 11, 4) == 0
    ensures GetBit(ins, 4) == 0
  {
    BitOfGetBits(ins, 11, 4, 0);
  }

  /** The out-parameters come in holding what the caller initialised them to. */
  method WriteShiftOperandSco(p: Core, ins: word, operand0: word, carry0: byte) returns (operand: word, carry: byte)
    requires p.Valid() && ShiftDefined(p.reg.regs[..], ins)
    ensures Operand(operand, carry) == ShifterOperand(p.reg.regs[..], ins, Operand(operand0, carry0))
  {
    operand, carry := operand0, carry0;
    var flagC := p.GetFlag(29);
    if GetBit(ins, 25) == 0 {
      var rm := p.ReadRegister(Rm(ins));
      if GetBits(ins, 11, 4) == 0 {
        ZeroShiftField(ins);
        operand, carry := rm, flagC;
      }
      if GetBit(ins, 4) == 0 {
        operand, carry := ImmediateShift(ShiftCode(ins), rm, ShiftAmount(ins), flagC);
      } else {
        var rs := p.ReadRegister(Rs(ins));
        if GetBit(ins, 7) == 0 {
          RsFields(rs);
          operand, carry := RegisterShift(ShiftCode(ins), rm, GetBits(rs, 7, 0), GetBits(rs, 4, 0), flagC);
        }
      }
    } else {
      operand := Ror(Immediate8(ins), 2 * Rs(ins));
      carry := if Rs(ins) == 0 then flagC else GetBit(operand, 31);
    }
  }

  // ----- Where the operand is what section A5.1 asks for -----

  /** LSL is right for every amount: Rm * 2^s modulo 2^32, and bit 32 of that product as carry. */
  lemma LslOperandAndCarry(rm: word, amount: nat, c: nat)
    requires amount < 256 && c <= 1
    ensures amount < 32 ==> ByImmediateShift(LSL, rm, amount, c) == ByRegisterShift(LSL, rm, amount, c)
    ensures var product: int := rm * Pow2(amount);
            && product == Doubled(rm, amount)
            && ByRegisterShift(LSL, rm, amount, c).value == Wrap(product)
            && (amount > 0 ==> ByRegisterShift(LSL, rm, amount, c).carry == Bit(product, 32))
  {
    DoubledIsProduct(rm, amount);
    HalvedParity(Doubled(rm, amount), 32);
  }

  /** For floor halving of an integer, 0 and -1 are the fixed points. */
  lemma {:induction false} HalvedFixed(y: int, k: nat)
    requires k > 0
    ensures Halved(y, k) == y <==> (y == 0 || y == -1)
    ensures y >= 0 ==> 0 <= Halved(y, k) <= y / 2
    ensures y < 0 ==> y / 2 <= Halved(y, k) < 0
    decreases k
  {
    if k > 1 {
      HalvedFixed(y / 2, k - 1);
    }
  }

  lemma {:induction false} HalvedTwice(y: int, j: nat, k: nat)
    ensures Halved(Halved(y, j), k) == Halved(y, j + k)
    decreases j
  {
    if j > 0 {
      HalvedTwice(y / 2, j - 1, k);
    }
  }

  predicate RepeatsAt(x: word, d: nat, i: nat) {
    Bit(x, i) == Bit(x, (i + d) % 32)
  }

  /** Going around the word, its bits repeat every `d` places. */
  ghost predicate Periodic(x: word, d: nat) {
    forall i: nat :: i < 32 ==> RepeatsAt(x, d, i)
  }

  /** The largest power of two that divides `d`: its greatest common divisor with 32. */
  function PowerIn(d: nat): nat
    requires 0 < d < 32
  {
    if d % 2 == 1 then 1 else if d % 4 == 2 then 2 else if d % 8 == 4 then 4 else if d % 16 == 8 then 8 else 16
  }

  /** The code shifts LSR by 1, ASR by 2 and ROR by 3 whatever the amount.  That is right exactly for those
      amounts, for values too small for the difference to show, and for ROR on words whose bits repeat every
      g places, g the largest power of two in how far the amount is from 3; for an even amount g is 1. */
  lemma WhereShiftIsRight(kind: nat, x: word, amount: nat)
    requires LSR <= kind <= ROR && 0 < amount < 32
    ensures kind == LSR ==> (ShiftOperation(x, kind, amount) == Shifted(kind, x, amount) <==> amount == 1 || x < 2)
    ensures kind == ASR ==> (ShiftOperation(x, kind, amount) == Shifted(kind, x, amount)
                             <==> amount == 2 || (if amount == 1 then -2 <= Signed(x) < 2 else -4 <= Signed(x) < 4))
    ensures kind == ROR ==> (ShiftOperation(x, kind, amount) == Shifted(kind, x, amount)
                             <==> amount == 3 || Periodic(x, PowerIn(RotationGap(amount))))
    ensures kind == ROR && amount % 2 == 0 ==> (ShiftOperation(x, kind, amount) == Shifted(kind, x, amount)
                                                <==> x == 0 || x == 0xFFFF_FFFF)
  {
    if kind == LSR {
      LsrRight(x, amount);
    } else if kind == ASR {
      AsrRight(x, amount);
    } else {
      assert amount % 32 == amount;
      RorRight(x, amount);
    }
  }

  lemma AroundTwice(p: nat, b: nat)
    ensures (p % 32 + b) % 32 == (p + b) % 32
  {
  }

  lemma PeriodicSum(x: word, a: nat, b: nat, sum: nat)
    requires Periodic(x, b) && sum == a + b
    ensures Periodic(x, sum) <==> Periodic(x, a)
  {
    forall i: nat | i < 32
      ensures RepeatsAt(x, sum, i) <==> RepeatsAt(x, a, i)
    {
      assert RepeatsAt(x, b, (i + a) % 32);
      AroundTwice(i + a, b);
      assert i + sum == i + a + b;
    }
  }

  lemma {:induction false} PeriodicMultiple(x: word, b: nat, q: nat, r: nat, a: nat)
    requires Periodic(x, b) && a == b * q + r
    ensures Periodic(x, a) <==> Periodic(x, r)
    decreases q
  {
    if q > 0 {
      assert b * q == b * (q - 1) + b;
      PeriodicMultiple(x, b, q - 1, r, a - b);
      PeriodicSum(x, a - b, b, a);
    }
  }

  lemma PeriodStep(x: word, d: nat, g: nat)
    requires g > 0 && d % (2 * g) == g && Periodic(x, 2 * g)
    ensures Periodic(x, d) <==> Periodic(x, g)
  {
    PeriodicMultiple(x, 2 * g, d / (2 * g), g, d);
  }

  /** From a period `d` to the power of two in it: twice `d` has twice the power, and 32 is a period. */
  lemma {:induction false} PeriodHalves(x: word, d: nat, g: nat)
    requires g in {1, 2, 4, 8, 16} && d % (2 * g) == g && Periodic(x, d)
    ensures Periodic(x, g)
    decreases 16 - g
  {
    if g < 16 {
      PeriodicSum(x, d, d, 2 * d);
      DivUnique(2 * d, 4 * g, d / (2 * g), 2 * g);
      PeriodHalves(x, 2 * d, 2 * g);
    }
    PeriodStep(x, d, g);
  }

  lemma PowerDivides(d: nat)
    requires 0 < d < 32
    ensures var g := PowerIn(d); g in {1, 2, 4, 8, 16} && d % (2 * g) == g
  {
  }

  lemma PeriodIsPower(x: word, d: nat)
    requires 0 < d < 32
    ensures Periodic(x, d) <==> Periodic(x, PowerIn(d))
  {
    var g := PowerIn(d);
    PowerDivides(d);
    if Periodic(x, d) {
      PeriodHalves(x, d, g);
    }
    if Periodic(x, g) {
      PeriodicSum(x, g, g, 2 * g);
      PeriodStep(x, d, g);
    }
  }

  lemma BitOfRorAround(x: word, d: nat, i: nat)
    requires 0 < d < 32 && i < 32
    ensures Bit(Ror(x, d), i) == Bit(x, (i + d) % 32)
  {
    BitOfRor(x, d, i);
    assert (i + d) % 32 == if i + d < 32 then i + d else i + d - 32;
  }

  lemma RotationFixes(x: word, d: nat)
    requires 0 < d < 32
    ensures Ror(x, d) == x <==> Periodic(x, d)
  {
    var y := Ror(x, d);
    forall i: nat | i < 32
      ensures Bit(y, i) == Bit(x, i) <==> RepeatsAt(x, d, i)
    {
      BitOfRorAround(x, d, i);
    }
    if Periodic(x, d) {
      WordsEqual(y, x);
    }
  }

  lemma GapPeriod(x: word, d: nat)
    requires 0 < d < 32
    ensures Ror(x, d) == x <==> Periodic(x, PowerIn(d))
  {
    RotationFixes(x, d);
    PeriodIsPower(x, d);
  }

  lemma {:induction false} AllBitsAlike(x: word, i: nat)
    requires Periodic(x, 1) && i < 32
    ensures Bit(x, i) == Bit(x, 0)
    decreases i
  {
    if i > 0 {
      AllBitsAlike(x, i - 1);
      assert RepeatsAt(x, 1, i - 1);
    }
  }

  lemma ConstantBits(i: nat)
    requires i < 32
    ensures Bit(0, i) == 0 && Bit(0xFFFF_FFFF, i) == 1
  {
    BitAboveSize(0, 0, i);
    BitOfNot(0, i);
  }

  lemma PeriodOne(x: word)
    ensures Periodic(x, 1) <==> x == 0 || x == 0xFFFF_FFFF
  {
    if Periodic(x, 1) {
      var y: word := if Bit(x, 0) == 0 then 0 else 0xFFFF_FFFF;
      forall i: nat | i < 32
        ensures Bit(x, i) == Bit(y, i)
      {
        AllBitsAlike(x, i);
        ConstantBits(i);
      }
      WordsEqual(x, y);
    } else {
      forall i: nat | i < 32 && (x == 0 || x == 0xFFFF_FFFF)
        ensures RepeatsAt(x, 1, i)
      {
        ConstantBits(i);
        ConstantBits((i + 1) % 32);
      }
    }
  }

  lemma LsrRight(x: word, amount: nat)
    requires 0 < amount < 32
    ensures Halved(x, 1) == Halved(x, amount) <==> amount == 1 || x < 2
  {
    HalvedTwice(x, 1, amount - 1);
    if amount > 1 {
      HalvedFixed(x / 2, amount - 1);
    }
  }

  lemma SignedInjective(a: int, b: int)
    requires -0x8000_0000 <= a < 0x8000_0000 && -0x8000_0000 <= b < 0x8000_0000
    ensures Wrap(a) == Wrap(b) <==> a == b
  {
  }

  lemma FloorsAgree(y: int, amount: nat)
    requires 0 < amount
    ensures Halved(y, 2) == Halved(y, amount) <==> amount == 2 || (if amount == 1 then -2 <= y < 2 else -4 <= y < 4)
  {
    HalvedTwice(y, 1, 1);
    assert Halved(y, 1) == y / 2;
    if amount == 1 {
      HalvedFixed(y / 2, 1);
    } else if amount > 2 {
      HalvedTwice(y, 2, amount - 2);
      HalvedFixed(Halved(y, 2), amount - 2);
    }
  }

  lemma AsrRight(x: word, amount: nat)
    requires 0 < amount < 32
    ensures Asr(x, 2) == Wrap(Halved(Signed(x), amount))
       <==> amount == 2 || (if amount == 1 then -2 <= Signed(x) < 2 else -4 <= Signed(x) < 4)
  {
    var y := Signed(x);
    AsrMeaning(x, 2);
    HalvedFixed(y, 2);
    HalvedFixed(y, amount);
    SignedInjective(Halved(y, 2), Halved(y, amount));
    FloorsAgree(y, amount);
  }

  lemma EvenAmount(amount: nat)
    requires 0 < amount < 32 && amount % 2 == 0
    ensures RotationGap(amount) != 0 && PowerIn(RotationGap(amount)) == 1
  {
  }

  lemma RorRight(x: word, amount: nat)
    requires 0 < amount < 32
    ensures Ror(x, 3) == Ror(x, amount) <==> amount == 3 || Periodic(x, PowerIn(RotationGap(amount)))
    ensures amount % 2 == 0 ==> (Ror(x, 3) == Ror(x, amount) <==> x == 0 || x == 0xFFFF_FFFF)
  {
    var d := RotationGap(amount);
    if amount != 3 {
      SameRotation(x, amount);
      GapPeriod(x, d);
      if amount % 2 == 0 {
        EvenAmount(amount);
        PeriodOne(x);
      }
    }
  }

  lemma SameRotation(x: word, amount: nat)
    requires 0 < amount < 32 && amount != 3
    ensures Ror(x, 3) == Ror(x, amount) <==> Ror(x, RotationGap(amount)) == x
  {
    GapCloses(x, amount);
    if Ror(x, 3) == Ror(x, amount) {
      RotationCancels(x, Ror(x, RotationGap(amount)), 3);
    }
  }

  lemma GapCloses(x: word, amount: nat)
    requires 0 < amount < 32 && amount != 3
    ensures Ror(Ror(x, RotationGap(amount)), 3) == Ror(x, amount)
  {
    RotationsCompose(x, RotationGap(amount), 3);
  }

  /** How much further than 3 a rotation by `amount` goes, modulo 32. */
  function RotationGap(amount: nat): (d: nat)
    requires 0 < amount < 32
    ensures d < 32 && (d == 0 <==> amount == 3)
  {
    if amount >= 3 then amount - 3 else amount + 29
  }

  // ----- The rotated immediate -----

  lemma RotationRecovered(x: word, a: nat)
    requires a < 32
    ensures Ror(Ror(x, a), if a == 0 then 0 else 32 - a) == x && Popcount(Ror(x, a)) == Popcount(x)
  {
    if a == 0 {
      RotationByZero(x);
    } else {
      RotationInverse(x, a);
      RotationKeepsPopcount(x, a);
    }
  }

  /** Rotating back recovers the 8-bit value, so equal operands of one rotation come from equal values;
      no set bit is lost; and for a rotation of at least 1 the carry-out is bit 31. */
  lemma RotatedImmediate(imm8: word, other: word, rotate: nat, c: nat)
    requires imm8 < 0x100 && other < 0x100 && rotate < 16 && c <= 1
    ensures var r := ByRotatedImmediate(imm8, rotate, c);
            && Ror(r.value, if rotate == 0 then 0 else 32 - 2 * rotate) == imm8
            && (r.value == ByRotatedImmediate(other, rotate, c).value <==> imm8 == other)
            && Popcount(r.value) == Popcount(imm8)
            && (rotate >= 1 ==> r.carry == Bit(imm8, 2 * rotate - 1))
  {
    RotationRecovered(imm8, 2 * rotate);
    RotationRecovered(other, 2 * rotate);
    if rotate >= 1 {
      BitOfRor(imm8, 2 * rotate, 31);
    }
  }
}
