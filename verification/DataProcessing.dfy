/** The data-processing instructions of arm_data_processing.c, all sixteen opcodes as the
    code computes them. */
module DataProcessing {
  import opened Bits
  import opened Util
  import opened Registers
  import opened ArmCore
  import opened Fields
  import opened Shifter

  const UNAFFECTED: byte := 0xFF

  // ----- Carry, borrow and overflow -----

  /** A C truth value in a uint8_t. */
  function Truth(b: bool): byte {
    if b then 1 else 0
  }

  /** The sum has already wrapped when it is compared. */
  predicate CarryFrom(x: word, y: word) {
    0xFFFF_FFFF < Wrap(x as int + y as int)
  }

  predicate BorrowFrom(x: word, y: word) {
    x < y
  }

  /** `~b` cut to uint8_t: 0xFF, which is UNAFFECTED, or 0xFE. */
  function Inverted(b: byte): byte {
    0xFF - b
  }

  predicate OverflowFrom(x: word, y: word, z: word, opcode: nat) {
    if opcode != 0 then Shr(x, 31) == Shr(y, 31) && Shr(x, 31) == Shr(z, 31)
    else Shr(x, 31) != Shr(y, 31) && Shr(x, 31) != Shr(z, 31)
  }

  // ----- Flags -----

  function PutBit(cpsr: word, i: nat, on: bool): word
    requires i < 32
  {
    if on then SetBit(cpsr, i) else ClrBit(cpsr, i)
  }

  /** The CPSR that write_flags leaves, from the value of the register it reads. */
  function FlagsFrom(cpsr: word, result: word, flagC: byte, flagV: byte): word {
    var withN := PutBit(cpsr, 31, GetBit(result, 31) == 1);
    var withZ := PutBit(withN, 30, result == 0);
    var withC := if flagC == UNAFFECTED then withZ else PutBit(withZ, 29, flagC == 1);
    if flagV == UNAFFECTED then withC else PutBit(withC, 28, flagV == 1)
  }

  /** write_flags, on any register number; a number out of reach ends the program. */
  function WriteFlagsOutcome(s: State, rd: byte, flagC: byte, flagV: byte): Outcome<State>
    requires s.Valid()
  {
    match ReadAnyOutcome(s, rd)
    case Exited(code) => Exited(code)
    case Returned(result) => Returned(s.(regs := s.regs[CPSR := FlagsFrom(s.regs[CPSR], result, flagC, flagV)]))
  }

  method WriteFlags(p: Core, rd: byte, flagC: byte, flagV: byte) returns (o: Outcome<()>)
    requires p.Valid()
    modifies p.reg.regs
    ensures match WriteFlagsOutcome(old(p.View()), rd, flagC, flagV)
            case Returned(after) => o == Returned(()) && p.View() == after
            case Exited(code) => o == Exited(code) && p.View() == old(p.View())
  {
    var cpsr := p.ReadCpsr();
    var read := p.ReadAny(rd);
    if read.Exited? {
      return Exited(read.code);
    }
    var flagN, flagZ := GetBit(read.value, 31), read.value == 0;
    cpsr := if flagN == 1 then SetBit(cpsr, 31) else ClrBit(cpsr, 31);
    cpsr := if flagZ then SetBit(cpsr, 30) else ClrBit(cpsr, 30);
    if flagC != UNAFFECTED {
      cpsr := if flagC == 1 then SetBit(cpsr, 29) else ClrBit(cpsr, 29);
    }
    if flagV != UNAFFECTED {
      cpsr := if flagV == 1 then SetBit(cpsr, 28) else ClrBit(cpsr, 28);
    }
    p.WriteCpsr(cpsr);
    o := Returned(());
  }

  /** update_flags: with Rd = R15 the SPSR comes back, or an exception is raised that does nothing. */
  function Updated(s: State, S: nat, rd: nat, flagC: byte, flagV: byte): State
    requires s.Valid() && rd < 16
  {
    if S == 1 && rd == PC then
      if HasSpsr(s.mode) then s.(regs := s.regs[CPSR := s.regs[SpsrSlot(s.mode)]]) else s
    else if S == 1 then s.(regs := s.regs[CPSR := FlagsFrom(s.regs[CPSR], s.regs[rd], flagC, flagV)])
    else s
  }

  method UpdateFlags(p: Core, S: nat, rd: nat, flagC: byte, flagV: byte)
    requires p.Valid() && rd < 16
    modifies p.reg.regs
    ensures p.View() == Updated(old(p.View()), S, rd, flagC, flagV)
  {
    if S == 1 && rd == 15 {
      if HasSpsr(p.reg.mode) {
        var spsr := p.reg.ReadSpsr();
        p.WriteCpsr(spsr.value);
      }
    } else if S == 1 {
      var _ := WriteFlags(p, rd, flagC, flagV);
    }
  }

  // ----- The operations -----

  /** `~c` in int. */
  function BitNot(c: int): int {
    -1 - c
  }

  /** The result of each opcode.  SBC and RSC subtract `~c` for the carry c. */
  function Alu(opcode: nat, rn: word, operand: word, c: nat): word
    requires opcode < 16
  {
    var x: int, y: int := rn, operand;
    match opcode
    case 0 => And(rn, operand)
    case 1 => Xor(rn, operand)
    case 2 => Wrap(x - y)
    case 3 => Wrap(y - x)
    case 4 => Wrap(x + y)
    case 5 => Wrap(x + y + c)
    case 6 => Wrap(x - y - BitNot(c))
    case 7 => Wrap(y - x - BitNot(c))
    case 8 => And(rn, operand)
    case 9 => Xor(rn, operand)
    case 10 => Wrap(x - y)
    case 11 => Wrap(x + y)
    case 12 => Or(rn, operand)
    case 13 => operand
    case 14 => And(rn, Not(operand))
    case _ => Not(operand)
  }

  predicate Compares(opcode: nat) {
    8 <= opcode < 12
  }

  /** The flag bytes each opcode passes on, from the values of Rn and C it uses for them. */
  function FlagBytes(opcode: nat, rn: word, operand: word, c: nat, carry: byte, value: word): (byte, byte)
    requires opcode < 16
  {
    var x: int, y: int := rn, operand;
    match opcode
    case 2 => (Inverted(Truth(BorrowFrom(rn, operand))), Truth(OverflowFrom(rn, operand, value, 1)))
    case 3 => (Inverted(Truth(BorrowFrom(operand, rn))), Truth(OverflowFrom(operand, rn, value, 0)))
    case 4 => (Truth(CarryFrom(rn, operand)), Truth(OverflowFrom(rn, operand, value, 1)))
    case 5 => (Truth(CarryFrom(Wrap(x + y), Wrap(c))), Truth(OverflowFrom(Wrap(x + y), Wrap(c), value, 1)))
    case 6 =>
      (Inverted(Truth(BorrowFrom(rn, Wrap(y - BitNot(c))))), Truth(OverflowFrom(rn, Wrap(y - BitNot(c)), value, 0)))
    case 7 =>
      (Inverted(Truth(BorrowFrom(Wrap(y - BitNot(c)), rn))), Truth(OverflowFrom(Wrap(y - BitNot(c)), rn, value, 0)))
    case 10 => (Inverted(Truth(BorrowFrom(rn, operand))), Truth(OverflowFrom(rn, operand, value, 0)))
    case 11 => (Truth(CarryFrom(rn, operand)), Truth(OverflowFrom(rn, operand, value, 1)))
    case _ => (carry, UNAFFECTED)
  }

  predicate ReadsAgain(opcode: nat) {
    5 <= opcode <= 7
  }

  /** The value of Rn the flags come from.  ADC, SBC and RSC read it again, after Rd has been written. */
  function FlagSource(s: State, opcode: nat, rd: nat, rn: nat, value: word): word
    requires s.Valid() && rd < 16 && rn < 16
  {
    ReadReg(if ReadsAgain(opcode) then s.regs[rd := value] else s.regs, rn)
  }

  /** An opcode that writes Rd, once its shifter operand and carry-out are known. */
  function Computed(s: State, opcode: nat, S: nat, rd: nat, rn: nat, operand: word, carry: byte): State
    requires s.Valid() && opcode < 16 && rd < 16 && rn < 16
  {
    var c := Flag(s.regs, 29);
    var x := ReadReg(s.regs, rn);
    var value := Alu(opcode, x, operand, c);
    var (flagC, flagV) := FlagBytes(opcode, FlagSource(s, opcode, rd, rn, value), operand, c, carry, value);
    Updated(s.(regs := s.regs[rd := value]), S, rd, flagC, flagV)
  }

  /** A compare opcode hands the low byte of its result to write_flags as if it were a register number. */
  function Compared(s: State, opcode: nat, rn: nat, operand: word, carry: byte): Outcome<State>
    requires s.Valid() && opcode < 16 && rn < 16
  {
    var c := Flag(s.regs, 29);
    var x := ReadReg(s.regs, rn);
    var value := Alu(opcode, x, operand, c);
    var (flagC, flagV) := FlagBytes(opcode, x, operand, c, carry, value);
    WriteFlagsOutcome(s, value % 0x100, flagC, flagV)
  }

  lemma ComputedBytes(s: State, opcode: nat, S: nat, rd: nat, rn: nat, operand: word, t: State,
                      flagC: byte, flagV: byte)
    requires s.Valid() && 5 <= opcode <= 7 && rd < 16 && rn < 16
    requires t == s.(regs := s.regs[rd := Alu(opcode, ReadReg(s.regs, rn), operand, Flag(s.regs, 29))])
    requires (flagC, flagV) == FlagBytes(opcode, ReadReg(t.regs, rn), operand, Flag(t.regs, 29), 0, t.regs[rd])
    ensures Computed(s, opcode, S, rd, rn, operand, 0) == Updated(t, S, rd, flagC, flagV)
  {
  }

  lemma ComparedBytes(s: State, opcode: nat, rn: nat, operand: word, carry: byte, value: word,
                      flagC: byte, flagV: byte)
    requires s.Valid() && opcode < 16 && rn < 16
    requires value == Alu(opcode, ReadReg(s.regs, rn), operand, Flag(s.regs, 29))
    requires (flagC, flagV) == FlagBytes(opcode, ReadReg(s.regs, rn), operand, Flag(s.regs, 29), carry, value)
    ensures Compared(s, opcode, rn, operand, carry) == WriteFlagsOutcome(s, value % 0x100, flagC, flagV)
  {
  }

  predicate ShifterDefined(s: State, ins: word) {
    s.Valid() && ShiftDefined(s.regs, ins)
  }

  function Opcode(ins: word): (r: nat)
    ensures r < 16
  {
    FieldSizes();
    GetBits(ins, 24, 21)
  }

  /** One data-processing instruction.  set_parameters starts the shifter results at 0. */
  function Process(s: State, ins: word): Outcome<State>
    requires ShifterDefined(s, ins)
  {
    var o := ShifterOperand(s.regs, ins, Operand(0, 0));
    if Compares(Opcode(ins)) then Compared(s, Opcode(ins), Rn(ins), o.value, o.carry)
    else Returned(Computed(s, Opcode(ins), GetBit(ins, 20), Rd(ins), Rn(ins), o.value, o.carry))
  }

  method AndOp(p: Core, S: nat, rd: nat, rn: nat, operand: word, carry: byte)
    requires p.Valid() && rd < 16 && rn < 16
    modifies p.reg.regs
    ensures p.View() == Computed(old(p.View()), 0, S, rd, rn, operand, carry)
  {
    var x := p.ReadRegister(rn);
    p.WriteRegister(rd, And(x, operand));
    UpdateFlags(p, S, rd, carry, UNAFFECTED);
  }

  method EorOp(p: Core, S: nat, rd: nat, rn: nat, operand: word, carry: byte)
    requires p.Valid() && rd < 16 && rn < 16
    modifies p.reg.regs
    ensures p.View() == Computed(old(p.View()), 1, S, rd, rn, operand, carry)
  {
    var x := p.ReadRegister(rn);
    p.WriteRegister(rd, Xor(x, operand));
    UpdateFlags(p, S, rd, carry, UNAFFECTED);
  }

  method SubOp(p: Core, S: nat, rd: nat, rn: nat, operand: word)
    requires p.Valid() && rd < 16 && rn < 16
    modifies p.reg.regs
    ensures p.View() == Computed(old(p.View()), 2, S, rd, rn, operand, 0)
  {
    var x: int := p.ReadRegister(rn);
    var y: int := operand;
    var value := Wrap(x - y);
    p.WriteRegister(rd, value);
    UpdateFlags(p, S, rd, Inverted(Truth(BorrowFrom(x, y))), Truth(OverflowFrom(x, y, value, 1)));
  }

  lemma RsbValue(x: word, y: word, c: nat)
    ensures Alu(3, x, y, c) == Wrap(y as int - x as int)
  {
  }

  lemma RsbBytes(x: word, y: word, c: nat, value: word)
    ensures FlagBytes(3, x, y, c, 0, value) ==
            (Inverted(Truth(BorrowFrom(y, x))), Truth(OverflowFrom(y, x, value, 0)))
  {
  }

  method RsbOp(p: Core, S: nat, rd: nat, rn: nat, operand: word)
    requires p.Valid() && rd < 16 && rn < 16
    modifies p.reg.regs
    ensures p.View() == Computed(old(p.View()), 3, S, rd, rn, operand, 0)
  {
    var x: int := p.ReadRegister(rn);
    var y: int := operand;
    var value := Wrap(y - x);
    ghost var c := Flag(p.reg.regs[..], 29);
    RsbValue(x, y, c);
    RsbBytes(x, y, c, value);
    p.WriteRegister(rd, value);
    UpdateFlags(p, S, rd, Inverted(Truth(BorrowFrom(y, x))), Truth(OverflowFrom(y, x, value, 0)));
  }

  method AddOp(p: Core, S: nat, rd: nat, rn: nat, operand: word)
    requires p.Valid() && rd < 16 && rn < 16
    modifies p.reg.regs
    ensures p.View() == Computed(old(p.View()), 4, S, rd, rn, operand, 0)
  {
    var x: int := p.ReadRegister(rn);
    var y: int := operand;
    var value := Wrap(x + y);
    p.WriteRegister(rd, value);
    UpdateFlags(p, S, rd, Truth(CarryFrom(x, y)), Truth(OverflowFrom(x, y, value, 1)));
  }

  lemma AdcValue(x: word, y: word, c: nat)
    ensures Alu(5, x, y, c) == Wrap(x as int + y as int + c)
  {
  }

  lemma AdcBytes(x: word, y: word, c: nat, value: word)
    ensures FlagBytes(5, x, y, c, 0, value) ==
            (Truth(CarryFrom(Wrap(x as int + y as int), Wrap(c))),
             Truth(OverflowFrom(Wrap(x as int + y as int), Wrap(c), value, 1)))
  {
  }

  method AdcOp(p: Core, S: nat, rd: nat, rn: nat, operand: word)
    requires p.Valid() && rd < 16 && rn < 16
    modifies p.reg.regs
    ensures p.View() == Computed(old(p.View()), 5, S, rd, rn, operand, 0)
  {
    ghost var s := p.View();
    var x: int := p.ReadRegister(rn);
    var y: int := operand;
    var c: int := p.GetFlag(29);
    var value := Wrap(x + y + c);
    AdcValue(x, y, c);
    p.WriteRegister(rd, value);
    x := p.ReadRegister(rn);
    c := p.GetFlag(29);
    var flagC := Truth(CarryFrom(Wrap(x + y), c));
    var flagV := Truth(OverflowFrom(Wrap(x + y), c, value, 1));
    AdcBytes(x, y, c, value);
    ComputedBytes(s, 5, S, rd, rn, operand, p.View(), flagC, flagV);
    UpdateFlags(p, S, rd, flagC, flagV);
  }

  lemma SbcValue(x: word, y: word, c: nat)
    ensures Alu(6, x, y, c) == Wrap(x as int - y as int - BitNot(c))
  {
  }

  lemma SbcBytes(x: word, y: word, c: nat, value: word)
    ensures FlagBytes(6, x, y, c, 0, value) ==
            (Inverted(Truth(BorrowFrom(x, Wrap(y as int - BitNot(c))))),
             Truth(OverflowFrom(x, Wrap(y as int - BitNot(c)), value, 0)))
  {
  }

  method SbcOp(p: Core, S: nat, rd: nat, rn: nat, operand: word)
    requires p.Valid() && rd < 16 && rn < 16
    modifies p.reg.regs
    ensures p.View() == Computed(old(p.View()), 6, S, rd, rn, operand, 0)
  {
    ghost var s := p.View();
    var x: int := p.ReadRegister(rn);
    var y: int := operand;
    var c: int := p.GetFlag(29);
    var value := Wrap(x - y - BitNot(c));
    SbcValue(x, y, c);
    p.WriteRegister(rd, value);
    x := p.ReadRegister(rn);
    c := p.GetFlag(29);
    var flagC := Inverted(Truth(BorrowFrom(x, Wrap(y - BitNot(c)))));
    var flagV := Truth(OverflowFrom(x, Wrap(y - BitNot(c)), value, 0));
    SbcBytes(x, y, c, value);
    ComputedBytes(s, 6, S, rd, rn, operand, p.View(), flagC, flagV);
    UpdateFlags(p, S, rd, flagC, flagV);
  }

  lemma RscValue(x: word, y: word, c: nat)
    ensures Alu(7, x, y, c) == Wrap(y as int - x as int - BitNot(c))
  {
  }

  lemma RscBytes(x: word, y: word, c: nat, value: word)
    ensures FlagBytes(7, x, y, c, 0, value) ==
            (Inverted(Truth(BorrowFrom(Wrap(y as int - BitNot(c)), x))),
             Truth(OverflowFrom(Wrap(y as int - BitNot(c)), x, value, 0)))
  {
  }

  method RscOp(p: Core, S: nat, rd: nat, rn: nat, operand: word)
    requires p.Valid() && rd < 16 && rn < 16
    modifies p.reg.regs
    ensures p.View() == Computed(old(p.View()), 7, S, rd, rn, operand, 0)
  {
    ghost var s := p.View();
    var x: int := p.ReadRegister(rn);
    var y: int := operand;
    var c: int := p.GetFlag(29);
    var value := Wrap(y - x - BitNot(c));
    RscValue(x, y, c);
    p.WriteRegister(rd, value);
    x := p.ReadRegister(rn);
    c := p.GetFlag(29);
    var flagC := Inverted(Truth(BorrowFrom(Wrap(y - BitNot(c)), x)));
    var flagV := Truth(OverflowFrom(Wrap(y - BitNot(c)), x, value, 0));
    RscBytes(x, y, c, value);
    ComputedBytes(s, 7, S, rd, rn, operand, p.View(), flagC, flagV);
    UpdateFlags(p, S, rd, flagC, flagV);
  }

  method TstOp(p: Core, rn: nat, operand: word, carry: byte) returns (o: Outcome<()>)
    requires p.Valid() && rn < 16
    modifies p.reg.regs
    ensures match Compared(old(p.View()), 8, rn, operand, carry)
            case Returned(after) => o == Returned(()) && p.View() == after
            case Exited(exit) => o == Exited(exit) && p.View() == old(p.View())
  {
    var x := p.ReadRegister(rn);
    var aluOut := And(x, operand);
    assert Compared(p.View(), 8, rn, operand, carry) == WriteFlagsOutcome(p.View(), aluOut % 0x100, carry, UNAFFECTED);
    o := WriteFlags(p, aluOut % 0x100, carry, UNAFFECTED);
  }

  method TeqOp(p: Core, rn: nat, operand: word, carry: byte) returns (o: Outcome<()>)
    requires p.Valid() && rn < 16
    modifies p.reg.regs
    ensures match Compared(old(p.View()), 9, rn, operand, carry)
            case Returned(after) => o == Returned(()) && p.View() == after
            case Exited(exit) => o == Exited(exit) && p.View() == old(p.View())
  {
    var x := p.ReadRegister(rn);
    var aluOut := Xor(x, operand);
    assert Compared(p.View(), 9, rn, operand, carry) == WriteFlagsOutcome(p.View(), aluOut % 0x100, carry, UNAFFECTED);
    o := WriteFlags(p, aluOut % 0x100, carry, UNAFFECTED);
  }

  method CmpOp(p: Core, rn: nat, operand: word) returns (o: Outcome<()>)
    requires p.Valid() && rn < 16
    modifies p.reg.regs
    ensures match Compared(old(p.View()), 10, rn, operand, 0)
            case Returned(after) => o == Returned(()) && p.View() == after
            case Exited(exit) => o == Exited(exit) && p.View() == old(p.View())
  {
    var x: int := p.ReadRegister(rn);
    var y: int := operand;
    var aluOut := Wrap(x - y);
    var flagC, flagV := Inverted(Truth(BorrowFrom(x, y))), Truth(OverflowFrom(x, y, aluOut, 0));
    ComparedBytes(p.View(), 10, rn, operand, 0, aluOut, flagC, flagV);
    o := WriteFlags(p, aluOut % 0x100, flagC, flagV);
  }

  method CmnOp(p: Core, rn: nat, operand: word) returns (o: Outcome<()>)
    requires p.Valid() && rn < 16
    modifies p.reg.regs
    ensures match Compared(old(p.View()), 11, rn, operand, 0)
            case Returned(after) => o == Returned(()) && p.View() == after
            case Exited(exit) => o == Exited(exit) && p.View() == old(p.View())
  {
    var x: int := p.ReadRegister(rn);
    var y: int := operand;
    var aluOut := Wrap(x + y);
    var flagC, flagV := Truth(CarryFrom(x, y)), Truth(OverflowFrom(x, y, aluOut, 1));
    ComparedBytes(p.View(), 11, rn, operand, 0, aluOut, flagC, flagV);
    o := WriteFlags(p, aluOut % 0x100, flagC, flagV);
  }

  method OrrOp(p: Core, S: nat, rd: nat, rn: nat, operand: word, carry: byte)
    requires p.Valid() && rd < 16 && rn < 16
    modifies p.reg.regs
    ensures p.View() == Computed(old(p.View()), 12, S, rd, rn, operand, carry)
  {
    var x := p.ReadRegister(rn);
    p.WriteRegister(rd, Or(x, operand));
    UpdateFlags(p, S, rd, carry, UNAFFECTED);
  }

  method MovOp(p: Core, S: nat, rd: nat, operand: word, carry: byte)
    requires p.Valid() && rd < 16
    modifies p.reg.regs
    ensures p.View() == Computed(old(p.View()), 13, S, rd, 0, operand, carry)
  {
    p.WriteRegister(rd, operand);
    UpdateFlags(p, S, rd, carry, UNAFFECTED);
  }

  method BicOp(p: Core, S: nat, rd: nat, rn: nat, operand: word, carry: byte)
    requires p.Valid() && rd < 16 && rn < 16
    modifies p.reg.regs
    ensures p.View() == Computed(old(p.View()), 14, S, rd, rn, operand, carry)
  {
    var x := p.ReadRegister(rn);
    p.WriteRegister(rd, And(x, Not(operand)));
    UpdateFlags(p, S, rd, carry, UNAFFECTED);
  }

  method MvnOp(p: Core, S: nat, rd: nat, operand: word, carry: byte)
    requires p.Valid() && rd < 16
    modifies p.reg.regs
    ensures p.View() == Computed(old(p.View()), 15, S, rd, 0, operand, carry)
  {
    p.WriteRegister(rd, Not(operand));
    UpdateFlags(p, S, rd, carry, UNAFFECTED);
  }

  method SelectOperation(p: Core, ins: word) returns (o: Outcome<()>)
    requires p.Valid() && ShifterDefined(p.View(), ins)
    modifies p.reg.regs
    ensures match Process(old(p.View()), ins)
            case Returned(after) => o == Returned(()) && p.View() == after
            case Exited(exit) => o == Exited(exit) && p.View() == old(p.View())
  {
    var opcode, S, rn, rd := Opcode(ins), GetBit(ins, 20), Rn(ins), Rd(ins);
    var operand, carry := WriteShiftOperandSco(p, ins, 0, 0);
    o := Returned(());
    match opcode {
      case 0 => AndOp(p, S, rd, rn, operand, carry);
      case 1 => EorOp(p, S, rd, rn, operand, carry);
      case 2 => SubOp(p, S, rd, rn, operand);
      case 3 => RsbOp(p, S, rd, rn, operand);
      case 4 => AddOp(p, S, rd, rn, operand);
      case 5 => AdcOp(p, S, rd, rn, operand);
      case 6 => SbcOp(p, S, rd, rn, operand);
      case 7 => RscOp(p, S, rd, rn, operand);
      case 8 => o := TstOp(p, rn, operand, carry);
      case 9 => o := TeqOp(p, rn, operand, carry);
      case 10 => o := CmpOp(p, rn, operand);
      case 11 => o := CmnOp(p, rn, operand);
      case 12 => OrrOp(p, S, rd, rn, operand, carry);
      case 13 => MovOp(p, S, rd, operand, carry);
      case 14 => BicOp(p, S, rd, rn, operand, carry);
      case _ => MvnOp(p, S, rd, operand, carry);
    }
  }
}
