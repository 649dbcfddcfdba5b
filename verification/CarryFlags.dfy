/** ADC, SBC and RSC: the result, and exactly when each flag is what the manual asks for. */
module CarryFlags {
  import opened Bits
  import opened Util
  import opened Registers
  import opened ArmCore
  import opened DataProcessing
  import opened FlagProperties

  const TWO32 := 0x1_0000_0000
  const TWO31 := 0x8000_0000

  // ----- What the manual asks for -----

  /** Rn + operand + C, Rn - operand - NOT C, operand - Rn - NOT C. */
  function Exact(opcode: nat, x: int, y: int, c: nat): int {
    if opcode == 5 then x + y + c else if opcode == 6 then x - y - (1 - c) else y - x - (1 - c)
  }

  /** A carry out of the addition, or no borrow from the subtraction. */
  predicate CarryAsked(opcode: nat, x: word, y: word, c: nat) {
    if opcode == 5 then Exact(opcode, x, y, c) >= TWO32 else Exact(opcode, x, y, c) >= 0
  }

  predicate OverflowAsked(opcode: nat, x: word, y: word, c: nat) {
    !Fits(Exact(opcode, Signed(x), Signed(y), c))
  }

  // ----- The result -----

  /** ADC is right.  SBC and RSC subtract `~C`, which is two less than NOT C, so their result is 2 too
      large for every input. */
  lemma CarryResults(x: word, y: word, c: nat)
    requires c <= 1
    ensures Alu(5, x, y, c) == Wrap(Exact(5, x, y, c))
    ensures Alu(6, x, y, c) == Wrap(Exact(6, x, y, c) + 2) != Wrap(Exact(6, x, y, c))
    ensures Alu(7, x, y, c) == Wrap(Exact(7, x, y, c) + 2) != Wrap(Exact(7, x, y, c))
  {
    TwoApart(Exact(6, x, y, c));
    TwoApart(Exact(7, x, y, c));
  }

  lemma TwoApart(d: int)
    ensures Wrap(d + 2) != Wrap(d)
  {
  }

  // ----- ADC -----

  /** ADC's V is right exactly when the signed operands have a negative sum; with Rd = Rn the code adds
      the operand once more to the result `t`. */
  predicate AdcOverflowRight(a: int, b: int, c: nat, same: bool) {
    var t := a + b + c;
    if !same then a + b < 0
    else if t < -TWO31 then t + b >= -TWO32
    else if t < 0 then true
    else t < TWO31 && !(0 <= t + b < TWO31)
  }

  lemma AdcTest(x: word, y: word, c: nat, source: word, same: bool)
    requires c <= 1 && source == (if same then Wrap(x as int + y as int + c) else x)
    ensures (OverflowFrom(Wrap(source as int + y as int), Wrap(c), Wrap(x as int + y as int + c), 1)
             <==> OverflowAsked(5, x, y, c))
       <==> AdcOverflowRight(Signed(x), Signed(y), c, same)
  {
    SignBit(Wrap(source as int + y as int));
    SignBit(Wrap(c));
    SignBit(Wrap(x as int + y as int + c));
  }

  // ----- SBC -----

  /** The code compares Rn, or with Rd = Rn the result, with operand + 2. */
  predicate SbcCarryRight(x: int, y: int, c: nat, same: bool) {
    if c == 0 then x <= y
    else if !same then (if y + 2 < TWO32 then x < y || x >= y + 2 else x < y + 2 - TWO32 || x >= y)
    else if y + 2 >= TWO32 then x >= y || (x == TWO32 - 3 && y == TWO32 - 1)
    else if x >= y then x + 2 - y < TWO32 && x >= 2 * y
    else y - x <= 2 || x + TWO32 < 2 * y
  }

  /** a and b are the signed operands, d their difference.  The code tests the signs of Rn, operand + k and
      the result; with Rd = Rn it tests the result against itself and so never reports an overflow. */
  predicate SbcOverflowRight(a: int, b: int, c: nat, same: bool) {
    var k, d := 1 + c, a - b;
    if same then Fits(d - (1 - c))
    else if a >= 0 then
      if b < -k then d < TWO32 - k && !(TWO31 - k <= d < TWO31 + 2 - k)
      else if b >= TWO31 - k then d >= -k
      else d < TWO31 + 2 - k
    else
      if b < -k then true
      else if b >= TWO31 - k then d >= -TWO31 + 2 - k
      else d < -TWO31 - k || -TWO31 + 2 - k <= d < -k
  }

  lemma SbcCarryTest(x: word, y: word, c: nat, source: word, same: bool)
    requires c <= 1 && source == (if same then Wrap(x as int - y as int - BitNot(c)) else x)
    ensures (FlagAfter(Inverted(Truth(BorrowFrom(source, Wrap(y as int - BitNot(c))))), c) == 1
             <==> CarryAsked(6, x, y, c))
       <==> SbcCarryRight(x, y, c, same)
  {
  }

  lemma SbcOverflowTest(x: word, y: word, c: nat, source: word, same: bool)
    requires c <= 1 && source == (if same then Wrap(x as int - y as int - BitNot(c)) else x)
    ensures (OverflowFrom(source, Wrap(y as int - BitNot(c)), Wrap(x as int - y as int - BitNot(c)), 0)
             <==> OverflowAsked(6, x, y, c))
       <==> SbcOverflowRight(Signed(x), Signed(y), c, same)
  {
    SignBit(source);
    SignBit(Wrap(y as int - BitNot(c)));
    SignBit(Wrap(x as int - y as int - BitNot(c)));
  }

  // ----- RSC -----

  /** The code compares operand + 2 with Rn; with Rd = Rn, comparing it with the result comes to the same. */
  predicate RscCarryRight(x: int, y: int, c: nat) {
    if c == 0 then y <= x
    else if y + 2 < TWO32 then x <= y || x > y + 2
    else x <= y + 2 - TWO32 || x > y
  }

  /** e is operand - Rn, signed.  The code tests the signs of operand + k, of Rn (or, with Rd = Rn, the
      result) and of the result. */
  predicate RscOverflowRight(a: int, b: int, c: nat, same: bool) {
    var k, e := 1 + c, b - a;
    if b >= TWO31 - k then (same && e >= TWO32 - k) || TWO31 - k <= e < TWO31 + 2 - k
    else if !same then !(TWO31 - k <= e < TWO31 + 2 - k) && !(-TWO31 - k <= e < -TWO31 + 2 - k)
    else if b >= -k then e < -TWO31 + 2 - k || -k <= e < TWO31 - k || e >= TWO31 + 2 - k
    else e < -TWO31 - k || -TWO31 + 2 - k <= e < -k
  }

  lemma RscCarryTest(x: word, y: word, c: nat, source: word, same: bool)
    requires c <= 1 && source == (if same then Wrap(y as int - x as int - BitNot(c)) else x)
    ensures (FlagAfter(Inverted(Truth(BorrowFrom(Wrap(y as int - BitNot(c)), source))), c) == 1
             <==> CarryAsked(7, x, y, c))
       <==> RscCarryRight(x, y, c)
  {
  }

  lemma RscOverflowTest(x: word, y: word, c: nat, source: word, same: bool)
    requires c <= 1 && source == (if same then Wrap(y as int - x as int - BitNot(c)) else x)
    ensures (OverflowFrom(Wrap(y as int - BitNot(c)), source, Wrap(y as int - x as int - BitNot(c)), 0)
             <==> OverflowAsked(7, x, y, c))
       <==> RscOverflowRight(Signed(x), Signed(y), c, same)
  {
    SignBit(source);
    SignBit(Wrap(y as int - BitNot(c)));
    SignBit(Wrap(y as int - x as int - BitNot(c)));
  }

  // ----- The instructions with S=1 -----

  /** Rn as ADC, SBC and RSC see it for their flags. */
  function Source(opcode: nat, x: word, y: word, c: nat, same: bool): word
    requires opcode < 16
  {
    if same then Alu(opcode, x, y, c) else x
  }

  lemma SourceRead(s: State, opcode: nat, rd: nat, rn: nat, operand: word)
    requires s.Valid() && ReadsAgain(opcode) && rd < PC && rn < 16
    ensures var x, c := ReadReg(s.regs, rn), Flag(s.regs, 29);
            FlagSource(s, opcode, rd, rn, Alu(opcode, x, operand, c)) == Source(opcode, x, operand, c, rd == rn)
  {
  }

  /** C and V as the opcode leaves them, from their values before. */
  function CarryLeft(opcode: nat, x: word, y: word, c: nat, same: bool): nat
    requires opcode < 16
  {
    FlagAfter(FlagBytes(opcode, Source(opcode, x, y, c, same), y, c, 0, Alu(opcode, x, y, c)).0, c)
  }

  function OverflowLeft(opcode: nat, x: word, y: word, c: nat, v: nat, same: bool): nat
    requires opcode < 16
  {
    FlagAfter(FlagBytes(opcode, Source(opcode, x, y, c, same), y, c, 0, Alu(opcode, x, y, c)).1, v)
  }

  lemma CarryInstruction(s: State, opcode: nat, rd: nat, rn: nat, operand: word)
    requires s.Valid() && ReadsAgain(opcode) && rd < PC && rn < 16
    ensures var x, c, v := ReadReg(s.regs, rn), Flag(s.regs, 29), Flag(s.regs, 28);
            var value, t := Alu(opcode, x, operand, c), Computed(s, opcode, 1, rd, rn, operand, 0);
            && |t.regs| == SLOTS && t == s.(regs := s.regs[rd := value][CPSR := t.regs[CPSR]])
            && Flag(t.regs, 31) == (if Signed(value) < 0 then 1 else 0)
            && Flag(t.regs, 30) == (if value == 0 then 1 else 0)
            && Flag(t.regs, 29) == CarryLeft(opcode, x, operand, c, rd == rn)
            && Flag(t.regs, 28) == OverflowLeft(opcode, x, operand, c, v, rd == rn)
  {
    FlagsOf(s, opcode, rd, rn, operand, 0);
    SourceRead(s, opcode, rd, rn, operand);
  }

  // The bytes as tests on any source and result.

  lemma AdcBytes(source: word, y: word, c: nat, v: nat, value: word)
    ensures var bytes := FlagBytes(5, source, y, c, 0, value);
            && FlagAfter(bytes.0, c) == 0
            && (FlagAfter(bytes.1, v) == 1 <==> OverflowFrom(Wrap(source as int + y as int), Wrap(c), value, 1))
  {
  }

  lemma SbcBytes(source: word, y: word, c: nat, v: nat, value: word)
    ensures var bytes := FlagBytes(6, source, y, c, 0, value);
            && bytes.0 == Inverted(Truth(BorrowFrom(source, Wrap(y as int - BitNot(c)))))
            && (FlagAfter(bytes.1, v) == 1 <==> OverflowFrom(source, Wrap(y as int - BitNot(c)), value, 0))
  {
  }

  lemma RscBytes(source: word, y: word, c: nat, v: nat, value: word)
    ensures var bytes := FlagBytes(7, source, y, c, 0, value);
            && bytes.0 == Inverted(Truth(BorrowFrom(Wrap(y as int - BitNot(c)), source)))
            && (FlagAfter(bytes.1, v) == 1 <==> OverflowFrom(Wrap(y as int - BitNot(c)), source, value, 0))
  {
  }

  lemma CarryValues(x: word, y: word, c: nat)
    ensures Alu(5, x, y, c) == Wrap(x as int + y as int + c)
    ensures Alu(6, x, y, c) == Wrap(x as int - y as int - BitNot(c))
    ensures Alu(7, x, y, c) == Wrap(y as int - x as int - BitNot(c))
  {
  }

  /** The flag of `t` is set exactly when the manual asks for it. */
  predicate Right(t: State, flag: nat, asked: bool) {
    |t.regs| == SLOTS && flag < 32 && (Flag(t.regs, flag) == 1 <==> asked)
  }

  lemma AdcFlags(x: word, y: word, c: nat, v: nat, same: bool)
    requires c <= 1
    ensures (CarryLeft(5, x, y, c, same) == 1 <==> CarryAsked(5, x, y, c)) <==> x as int + y as int + c < TWO32
    ensures (OverflowLeft(5, x, y, c, v, same) == 1 <==> OverflowAsked(5, x, y, c))
       <==> AdcOverflowRight(Signed(x), Signed(y), c, same)
  {
    var source, value := Source(5, x, y, c, same), Alu(5, x, y, c);
    CarryValues(x, y, c);
    AdcBytes(source, y, c, v, value);
    AdcTest(x, y, c, source, same);
  }

  /** After ADC, Rd, N and Z are always right, C (always 0) exactly when there is no carry, and V under
      AdcOverflowRight. */
  lemma WhereAdcIsRight(s: State, rd: nat, rn: nat, operand: word)
    requires s.Valid() && rd < PC && rn < 16
    ensures var x, c, t := ReadReg(s.regs, rn), Flag(s.regs, 29), Computed(s, 5, 1, rd, rn, operand, 0);
            var asked := Wrap(Exact(5, x, operand, c));
            && |t.regs| == SLOTS && t == s.(regs := s.regs[rd := asked][CPSR := t.regs[CPSR]])
            && Right(t, 31, Signed(asked) < 0) && Right(t, 30, asked == 0)
            && (Right(t, 29, CarryAsked(5, x, operand, c)) <==> x as int + operand as int + c < TWO32)
            && (Right(t, 28, OverflowAsked(5, x, operand, c)) <==>
                  AdcOverflowRight(Signed(x), Signed(operand), c, rd == rn))
  {
    var x, c := ReadReg(s.regs, rn), Flag(s.regs, 29);
    CarryInstruction(s, 5, rd, rn, operand);
    CarryResults(x, operand, c);
    AdcFlags(x, operand, c, Flag(s.regs, 28), rd == rn);
  }

  /** N and Z of a result that is 2 too large. */
  predicate SignRight(asked: word) {
    asked !in {0x7FFF_FFFE, 0x7FFF_FFFF, 0xFFFF_FFFE, 0xFFFF_FFFF}
  }

  predicate ZeroRight(asked: word) {
    asked != 0 && asked != 0xFFFF_FFFE
  }

  lemma TwoMore(d: int)
    ensures Wrap(d + 2) == Wrap(Wrap(d) + 2)
    ensures (Signed(Wrap(d + 2)) < 0 <==> Signed(Wrap(d)) < 0) <==> SignRight(Wrap(d))
    ensures (Wrap(d + 2) == 0 <==> Wrap(d) == 0) <==> ZeroRight(Wrap(d))
  {
    WrapAdds(d, 2);
  }

  lemma SbcFlags(x: word, y: word, c: nat, v: nat, same: bool)
    requires c <= 1
    ensures (CarryLeft(6, x, y, c, same) == 1 <==> CarryAsked(6, x, y, c)) <==> SbcCarryRight(x, y, c, same)
    ensures (OverflowLeft(6, x, y, c, v, same) == 1 <==> OverflowAsked(6, x, y, c))
       <==> SbcOverflowRight(Signed(x), Signed(y), c, same)
  {
    var source, value := Source(6, x, y, c, same), Alu(6, x, y, c);
    CarryValues(x, y, c);
    SbcBytes(source, y, c, v, value);
    SbcCarryTest(x, y, c, source, same);
    SbcOverflowTest(x, y, c, source, same);
  }

  /** After SBC Rd is never right; each flag is, exactly under the condition named. */
  lemma WhereSbcIsRight(s: State, rd: nat, rn: nat, operand: word)
    requires s.Valid() && rd < PC && rn < 16
    ensures var x, c, t := ReadReg(s.regs, rn), Flag(s.regs, 29), Computed(s, 6, 1, rd, rn, operand, 0);
            var asked := Wrap(Exact(6, x, operand, c));
            && |t.regs| == SLOTS && t == s.(regs := s.regs[rd := Wrap(asked + 2)][CPSR := t.regs[CPSR]])
            && t.regs[rd] != asked
            && (Right(t, 31, Signed(asked) < 0) <==> SignRight(asked))
            && (Right(t, 30, asked == 0) <==> ZeroRight(asked))
            && (Right(t, 29, CarryAsked(6, x, operand, c)) <==> SbcCarryRight(x, operand, c, rd == rn))
            && (Right(t, 28, OverflowAsked(6, x, operand, c)) <==>
                  SbcOverflowRight(Signed(x), Signed(operand), c, rd == rn))
  {
    var x, c := ReadReg(s.regs, rn), Flag(s.regs, 29);
    CarryInstruction(s, 6, rd, rn, operand);
    CarryResults(x, operand, c);
    TwoMore(Exact(6, x, operand, c));
    SbcFlags(x, operand, c, Flag(s.regs, 28), rd == rn);
  }

  lemma RscFlags(x: word, y: word, c: nat, v: nat, same: bool)
    requires c <= 1
    ensures (CarryLeft(7, x, y, c, same) == 1 <==> CarryAsked(7, x, y, c)) <==> RscCarryRight(x, y, c)
    ensures (OverflowLeft(7, x, y, c, v, same) == 1 <==> OverflowAsked(7, x, y, c))
       <==> RscOverflowRight(Signed(x), Signed(y), c, same)
  {
    var source, value := Source(7, x, y, c, same), Alu(7, x, y, c);
    CarryValues(x, y, c);
    RscBytes(source, y, c, v, value);
    RscCarryTest(x, y, c, source, same);
    RscOverflowTest(x, y, c, source, same);
  }

  /** And after RSC. */
  lemma WhereRscIsRight(s: State, rd: nat, rn: nat, operand: word)
    requires s.Valid() && rd < PC && rn < 16
    ensures var x, c, t := ReadReg(s.regs, rn), Flag(s.regs, 29), Computed(s, 7, 1, rd, rn, operand, 0);
            var asked := Wrap(Exact(7, x, operand, c));
            && |t.regs| == SLOTS && t == s.(regs := s.regs[rd := Wrap(asked + 2)][CPSR := t.regs[CPSR]])
            && t.regs[rd] != asked
            && (Right(t, 31, Signed(asked) < 0) <==> SignRight(asked))
            && (Right(t, 30, asked == 0) <==> ZeroRight(asked))
            && (Right(t, 29, CarryAsked(7, x, operand, c)) <==> RscCarryRight(x, operand, c))
            && (Right(t, 28, OverflowAsked(7, x, operand, c)) <==>
                  RscOverflowRight(Signed(x), Signed(operand), c, rd == rn))
  {
    var x, c := ReadReg(s.regs, rn), Flag(s.regs, 29);
    CarryInstruction(s, 7, rd, rn, operand);
    CarryResults(x, operand, c);
    TwoMore(Exact(7, x, operand, c));
    RscFlags(x, operand, c, Flag(s.regs, 28), rd == rn);
  }
}
