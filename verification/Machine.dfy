/** arm_decode and arm_step of arm_instruction.c: one instruction after another. */
module Machine {
  import opened Bits
  import opened Util
  import opened Memory
  import opened Registers
  import opened ArmCore
  import opened Conditions
  import opened Fields
  import LSM = LoadStoreMultiple
  import LS = LoadStore
  import opened Shifter
  import opened DataProcessing
  import opened Branch
  import BT = BlockTransfer
  import opened FlagProperties

  const UNDEFINED_INSTRUCTION := 2
  const SOFTWARE_INTERRUPT := 3

  // ----- One instruction as a function -----

  /** The state and the result code an instruction leaves. */
  datatype Done = Done(state: State, code: nat)

  /** Bits 24..23 at 10 with S = 0: the miscellaneous space of class 0. */
  predicate IsMiscellaneous(ins: word) {
    Class(ins) == 0 && GetBits(ins, 24, 23) == 2 && GetBit(ins, 20) == 0
  }

  /** arm_miscellaneous copies the SPSR or the CPSR to Rd and reports an undefined instruction all the same. */
  function Miscellaneous(s: State, ins: word): Outcome<Done>
    requires s.Valid()
  {
    if GetBit(ins, 22) == 1 then
      if HasSpsr(s.mode) then
        Returned(Done(s.(regs := s.regs[Rd(ins) := s.regs[SpsrSlot(s.mode)]]), UNDEFINED_INSTRUCTION))
      else Exited(1)
    else Returned(Done(s.(regs := s.regs[Rd(ins) := s.regs[CPSR]]), UNDEFINED_INSTRUCTION))
  }

  /** arm_coprocessor_others_swi: SWI 0x123456 ends the program. */
  function SwiOrCoprocessor(s: State, ins: word): Outcome<Done> {
    if GetBit(ins, 24) == 1 then
      if ins % 0x100_0000 == 0x12_3456 then Exited(0) else Returned(Done(s, SOFTWARE_INTERRUPT))
    else Returned(Done(s, UNDEFINED_INSTRUCTION))
  }

  predicate IsDataProcessing(ins: word) {
    Class(ins) == 1 || (Class(ins) == 0 && !IsMiscellaneous(ins))
  }

  /** What the C needs so that every access and shift of this instruction is defined. */
  predicate Executable(s: State, ins: word) {
    && s.Valid()
    && (IsDataProcessing(ins) ==> ShiftDefined(s.regs, ins))
    && (Class(ins) == 2 || Class(ins) == 3 ==> LS.Accessible(s, ins))
    && (Class(ins) == 4 ==> LSM.BlockInBounds(s, ins))
  }

  /** A failed condition sets a result code that nearly every class then replaces; it stops nothing. */
  function Dispatch(s: State, ins: word): Outcome<Done>
    requires Executable(s, ins)
  {
    if IsMiscellaneous(ins) then
      if GetBit(ins, 4) == 0 || GetBit(ins, 7) == 0 then Miscellaneous(s, ins)
      else Returned(Done(s, if Passes(s, ins) then 0 else UNDEFINED_INSTRUCTION))
    else if IsDataProcessing(ins) then
      match Process(s, ins)
      case Returned(t) => Returned(Done(t, 0))
      case Exited(code) => Exited(code)
    else if Class(ins) == 2 || Class(ins) == 3 then Returned(Done(LS.Transfer(s, ins), 0))
    else if Class(ins) == 4 then Returned(Done(LSM.Execute(s, ins), 0))
    else if Class(ins) == 5 then Returned(Done(s.(regs := BranchRegs(s.regs, ins)), 0))
    else if Class(ins) == 6 then Returned(Done(s, UNDEFINED_INSTRUCTION))
    else SwiOrCoprocessor(s, ins)
  }

  function Fetched(s: State): State
    requires s.Valid()
  {
    s.(regs := s.regs[PC := Wrap(FetchAddress(s.regs[PC]) as int + 4)])
  }

  function Instruction(s: State): word
    requires s.Valid() && InBounds(|s.mem|, FetchAddress(s.regs[PC]), 4)
  {
    Load(s.mem, s.be, W32, FetchAddress(s.regs[PC]))
  }

  predicate CanStep(s: State) {
    && s.Valid() && InBounds(|s.mem|, FetchAddress(s.regs[PC]), 4)
    && Executable(Fetched(s), Instruction(s))
  }

  /** One step.  arm_exception does nothing for the codes instructions report. */
  function Step(s: State): Outcome<Done>
    requires CanStep(s)
  {
    Dispatch(Fetched(s), Instruction(s))
  }

  // ----- One instruction as the code runs it -----

  method ArmMiscellaneous(p: Core, ins: word) returns (o: Outcome<nat>)
    requires p.Valid()
    modifies p.reg.regs
    ensures match Miscellaneous(old(p.View()), ins)
            case Returned(d) => o == Returned(d.code) && p.View() == d.state
            case Exited(code) => o == Exited(code) && p.View() == old(p.View())
  {
    if GetBit(ins, 22) == 1 {
      var spsr := p.reg.ReadSpsr();
      if spsr.Exited? {
        return Exited(spsr.code);
      }
      p.WriteRegister(Rd(ins), spsr.value);
    } else {
      var cpsr := p.ReadCpsr();
      p.WriteRegister(Rd(ins), cpsr);
    }
    o := Returned(UNDEFINED_INSTRUCTION);
  }

  lemma SwiNumber(ins: word)
    ensures And(ins, 0xFF_FFFF) == ins % 0x100_0000
  {
    FieldSizes();
    AndMask(ins, 24);
    LowIsRemainder(ins, 24);
  }

  method ArmCoprocessorOthersSwi(p: Core, ins: word) returns (o: Outcome<nat>)
    ensures match SwiOrCoprocessor(p.View(), ins)
            case Returned(d) => o == Returned(d.code) && p.View() == d.state
            case Exited(code) => o == Exited(code)
  {
    if GetBit(ins, 24) == 1 {
      SwiNumber(ins);
      if And(ins, 0xFF_FFFF) == 0x12_3456 {
        return Exited(0);
      }
      return Returned(SOFTWARE_INTERRUPT);
    }
    o := Returned(UNDEFINED_INSTRUCTION);
  }

  method ArmDispatch(p: Core, ins: word) returns (o: Outcome<nat>)
    requires p.Valid() && Executable(p.View(), ins)
    modifies p.reg.regs, p.mem.octets
    ensures match Dispatch(old(p.View()), ins)
            case Returned(d) => o == Returned(d.code) && p.View() == d.state
            case Exited(code) => o == Exited(code)
  {
    var passes := TestCondition(p, Cond(ins));
    o := Returned(if passes then 0 else UNDEFINED_INSTRUCTION);
    if Class(ins) == 0 && GetBits(ins, 24, 23) == 2 && GetBit(ins, 20) == 0 {
      if GetBit(ins, 4) == 0 || GetBit(ins, 7) == 0 {
        o := ArmMiscellaneous(p, ins);
      }
    } else if Class(ins) <= 1 {
      assert IsDataProcessing(ins);
      var r := SelectOperation(p, ins);
      o := if r.Returned? then Returned(0) else Exited(r.code);
    } else if Class(ins) <= 3 {
      LS.ArmLoadStore(p, ins);
      o := Returned(0);
    } else if Class(ins) == 4 {
      LSM.ArmLoadStoreMultiple(p, ins);
      o := Returned(0);
    } else if Class(ins) == 5 {
      ArmBranch(p, ins);
      o := Returned(0);
    } else if Class(ins) == 6 {
      o := Returned(UNDEFINED_INSTRUCTION);
    } else {
      o := ArmCoprocessorOthersSwi(p, ins);
    }
  }

  method ArmStep(p: Core) returns (o: Outcome<nat>)
    requires p.Valid() && CanStep(p.View())
    modifies p.reg.regs, p.mem.octets
    ensures match Step(old(p.View()))
            case Returned(d) => o == Returned(d.code) && p.View() == d.state
            case Exited(code) => o == Exited(code)
  {
    var _, ins := p.Fetch();
    o := ArmDispatch(p, ins);
  }

  // ----- The condition field -----

  /** Two words that differ in their condition field at most. */
  predicate SameBelow28(x: word, y: word) {
    Low(x, 28) == Low(y, 28)
  }

  lemma SameField(x: word, y: word, h: nat, l: nat)
    requires SameBelow28(x, y) && l <= h < 28
    ensures GetBits(x, h, l) == GetBits(y, h, l)
  {
    forall i: nat | i < 32
      ensures Bit(GetBits(x, h, l), i) == Bit(GetBits(y, h, l), i)
    {
      BitOfGetBits(x, h, l, i);
      BitOfGetBits(y, h, l, i);
      BitOfLow(x, 28, i + l);
      BitOfLow(y, 28, i + l);
    }
    WordsEqual(GetBits(x, h, l), GetBits(y, h, l));
  }

  lemma SameBit(x: word, y: word, i: nat)
    requires SameBelow28(x, y) && i < 28
    ensures GetBit(x, i) == GetBit(y, i)
  {
    BitOfLow(x, 28, i);
    BitOfLow(y, 28, i);
  }

  lemma SameSwiNumber(x: word, y: word)
    requires SameBelow28(x, y)
    ensures x % 0x100_0000 == y % 0x100_0000
  {
    SameField(x, y, 23, 0);
    FieldSizes();
    LowIsRemainder(x, 24);
    LowIsRemainder(y, 24);
  }

  lemma SameBits(x: word, y: word)
    requires SameBelow28(x, y)
    ensures GetBit(x, 4) == GetBit(y, 4) && GetBit(x, 7) == GetBit(y, 7) && GetBit(x, 23) == GetBit(y, 23)
    ensures GetBit(x, 25) == GetBit(y, 25) && LBit(x) == LBit(y) && WBit(x) == WBit(y) && BBit(x) == BBit(y)
    ensures UBit(x) == UBit(y) && PBit(x) == PBit(y) && Class(x) == Class(y)
    ensures GetBits(x, 24, 23) == GetBits(y, 24, 23) && GetBits(x, 11, 4) == GetBits(y, 11, 4)
  {
    SameBit(x, y, 4);
    SameBit(x, y, 7);
    SameBit(x, y, 20);
    SameBit(x, y, 21);
    SameBit(x, y, 22);
    SameBit(x, y, 23);
    SameBit(x, y, 24);
    SameBit(x, y, 25);
    SameField(x, y, 27, 25);
    SameField(x, y, 24, 23);
    SameField(x, y, 11, 4);
  }

  lemma SameNumbers(x: word, y: word)
    requires SameBelow28(x, y)
    ensures Rn(x) == Rn(y) && Rd(x) == Rd(y) && Rs(x) == Rs(y) && Rm(x) == Rm(y)
    ensures Immediate12(x) == Immediate12(y) && Immediate8(x) == Immediate8(y) && Immediate24(x) == Immediate24(y)
    ensures ShiftCode(x) == ShiftCode(y) && ShiftAmount(x) == ShiftAmount(y) && Opcode(x) == Opcode(y)
  {
    SameField(x, y, 19, 16);
    SameField(x, y, 15, 12);
    SameField(x, y, 11, 8);
    SameField(x, y, 3, 0);
    SameField(x, y, 11, 0);
    SameField(x, y, 7, 0);
    SameField(x, y, 23, 0);
    SameField(x, y, 6, 5);
    SameField(x, y, 11, 7);
    SameField(x, y, 24, 21);
  }

  lemma SameProcess(s: State, x: word, y: word)
    requires SameBelow28(x, y) && ShifterDefined(s, x)
    ensures ShifterDefined(s, y) && Process(s, x) == Process(s, y)
  {
    SameBits(x, y);
    SameNumbers(x, y);
  }

  lemma SameOffset(regs: seq<word>, x: word, y: word)
    requires |regs| == SLOTS && SameBelow28(x, y) && LS.Defined(x)
    ensures LS.Defined(y) && LS.OffsetOf(regs, x) == LS.OffsetOf(regs, y)
  {
    SameBits(x, y);
    SameNumbers(x, y);
  }

  lemma SameAddress(regs: seq<word>, x: word, y: word)
    requires |regs| == SLOTS && SameBelow28(x, y) && LS.Defined(x)
    ensures LS.Defined(y) && LS.EffectiveAddress(regs, x) == LS.EffectiveAddress(regs, y)
  {
    SameBits(x, y);
    SameNumbers(x, y);
    SameOffset(regs, x, y);
  }

  lemma SameTransfer(s: State, x: word, y: word)
    requires SameBelow28(x, y) && LS.Accessible(s, x)
    ensures LS.Accessible(s, y) && LS.Transfer(s, x) == LS.Transfer(s, y)
  {
    SameAddress(s.regs, x, y);
    SameBits(x, y);
    SameNumbers(x, y);
    assert LS.AccessWidth(x) == LS.AccessWidth(y) && LS.StoredValue(s.regs, x) == LS.StoredValue(s.regs, y);
  }

  lemma SameRest(s: State, x: word, y: word)
    requires SameBelow28(x, y) && s.Valid()
    ensures BranchRegs(s.regs, x) == BranchRegs(s.regs, y)
    ensures Miscellaneous(s, x) == Miscellaneous(s, y)
    ensures SwiOrCoprocessor(s, x) == SwiOrCoprocessor(s, y)
  {
    SameBits(x, y);
    SameBit(x, y, 24);
    SameNumbers(x, y);
    SameSwiNumber(x, y);
  }

  /** Both end the program with one exit code, or leave one state. */
  predicate SameEffect(o: Outcome<Done>, p: Outcome<Done>) {
    match (o, p)
    case (Returned(d), Returned(e)) => d.state == e.state
    case (Exited(code), Exited(code')) => code == code'
    case _ => false
  }

  /** Outside LDM and STM the condition field decides nothing: any other condition has the same effect. */
  lemma ConditionFieldIgnored(s: State, ins: word, other: word)
    requires Executable(s, ins) && SameBelow28(ins, other) && Class(ins) != 4
    ensures Executable(s, other) && SameEffect(Dispatch(s, ins), Dispatch(s, other))
  {
    SameBits(ins, other);
    SameRest(s, ins, other);
    if IsDataProcessing(ins) {
      SameProcess(s, ins, other);
    } else if Class(ins) == 2 || Class(ins) == 3 {
      SameTransfer(s, ins, other);
    }
  }

  /** Classes 6 and 7, and miscellaneous words with bits 4 and 7 set, change nothing. */
  predicate Idle(ins: word) {
    Class(ins) > 5 || (IsMiscellaneous(ins) && GetBit(ins, 4) == 1 && GetBit(ins, 7) == 1)
  }

  lemma IdleEffect(s: State, ins: word)
    requires Executable(s, ins) && Idle(ins)
    ensures Dispatch(s, ins).Returned? ==> Dispatch(s, ins).value.state == s
  {
  }

  predicate IsExit(ins: word) {
    Class(ins) == 7 && GetBit(ins, 24) == 1 && ins % 0x100_0000 == 0x12_3456
  }

  /** A failed condition leaves everything as it is for LDM and STM, which test it, and for the words that
      change nothing anyway, SWI 0x123456 excepted. */
  lemma FailedConditionHonoured(s: State, ins: word)
    requires Executable(s, ins) && !Passes(s, ins) && (Class(ins) == 4 || Idle(ins)) && !IsExit(ins)
    ensures Dispatch(s, ins).Returned? && Dispatch(s, ins).value.state == s
  {
    if Idle(ins) {
      IdleEffect(s, ins);
    }
  }

  /** A failed branch acts all the same; it leaves the state as it was exactly when it leads to itself. */
  lemma FailedBranch(s: State, ins: word)
    requires Executable(s, ins) && !Passes(s, ins) && Class(ins) == 5
    ensures Dispatch(s, ins).Returned?
    ensures Dispatch(s, ins).value.state == s
       <==> s.regs[PC] % 4 < 2 && Immediate24(ins) == 0xFF_FFFF
            && (GetBit(ins, 24) == 1 ==> s.regs[14] == ReadReg(s.regs, PC))
  {
    WhereBranchStandsStill(s.regs, ins);
    assert Dispatch(s, ins).value.state == s.(regs := BranchRegs(s.regs, ins));
  }

  // ----- Every run -----

  /** What no instruction changes in USR and SYS: the mode, the byte order, the memory's
      size, the banked slots 17..36 and the 28 low bits of the CPSR. */
  predicate Confined(s: State, t: State) {
    && s.Valid() && t.Valid() && t.mode == s.mode && t.be == s.be && |t.mem| == |s.mem|
    && t.regs[R13_SVC..] == s.regs[R13_SVC..]
    && Low(t.regs[CPSR], 28) == Low(s.regs[CPSR], 28)
  }

  lemma LowFromBits(x: word, y: word, n: nat)
    requires forall i: nat :: i < n ==> Bit(x, i) == Bit(y, i)
    ensures Low(x, n) == Low(y, n)
  {
    forall i: nat | i < n
      ensures Bit(Low(x, n), i) == Bit(Low(y, n), i)
    {
      BitOfLow(x, n, i);
      BitOfLow(y, n, i);
    }
    BitsDetermine(Low(x, n), Low(y, n), n);
  }

  lemma FlagsKeepLowBits(cpsr: word, result: word, flagC: byte, flagV: byte)
    ensures Low(FlagsFrom(cpsr, result, flagC, flagV), 28) == Low(cpsr, 28)
  {
    forall i: nat | i < 28
      ensures Bit(FlagsFrom(cpsr, result, flagC, flagV), i) == Bit(cpsr, i)
    {
      FlagsMeaning(cpsr, result, flagC, flagV, i);
    }
    LowFromBits(FlagsFrom(cpsr, result, flagC, flagV), cpsr, 28);
  }

  lemma FlagsConfined(s: State, rd: byte, flagC: byte, flagV: byte)
    requires s.Valid()
    ensures var o := WriteFlagsOutcome(s, rd, flagC, flagV);
            o.Returned? ==> Confined(s, o.value)
  {
    var o := ReadAnyOutcome(s, rd);
    if o.Returned? {
      FlagsKeepLowBits(s.regs[CPSR], o.value, flagC, flagV);
    }
  }

  lemma UpdateConfined(s: State, S: nat, rd: nat, flagC: byte, flagV: byte)
    requires s.Valid() && rd < 16 && !HasSpsr(s.mode)
    ensures Confined(s, Updated(s, S, rd, flagC, flagV))
  {
    FlagsKeepLowBits(s.regs[CPSR], s.regs[rd], flagC, flagV);
  }

  lemma ComputedConfined(s: State, opcode: nat, S: nat, rd: nat, rn: nat, operand: word, carry: byte)
    requires s.Valid() && !HasSpsr(s.mode) && opcode < 16 && rd < 16 && rn < 16
    ensures Confined(s, Computed(s, opcode, S, rd, rn, operand, carry))
  {
    var x, c := ReadReg(s.regs, rn), Flag(s.regs, 29);
    var value := Alu(opcode, x, operand, c);
    var t := s.(regs := s.regs[rd := value]);
    var bytes := FlagBytes(opcode, FlagSource(s, opcode, rd, rn, value), operand, c, carry, value);
    UpdateConfined(t, S, rd, bytes.0, bytes.1);
  }

  lemma ProcessConfined(s: State, ins: word)
    requires ShifterDefined(s, ins) && !HasSpsr(s.mode)
    ensures Process(s, ins).Returned? ==> Confined(s, Process(s, ins).value)
  {
    var o := ShifterOperand(s.regs, ins, Operand(0, 0));
    if Compares(Opcode(ins)) {
      var x, c := ReadReg(s.regs, Rn(ins)), Flag(s.regs, 29);
      var value := Alu(Opcode(ins), x, o.value, c);
      var bytes := FlagBytes(Opcode(ins), x, o.value, c, o.carry, value);
      FlagsConfined(s, value % 0x100, bytes.0, bytes.1);
    } else {
      ComputedConfined(s, Opcode(ins), GetBit(ins, 20), Rd(ins), Rn(ins), o.value, o.carry);
    }
  }

  lemma BlockConfined(s: State, ins: word)
    requires s.Valid() && LSM.BlockInBounds(s, ins)
    ensures Confined(s, LSM.Execute(s, ins))
  {
    if Passes(s, ins) && LBit(ins) == 1 {
      BT.LdmEffect(s, ins);
      assert LSM.Execute(s, ins).regs[R13_SVC..] == s.regs[R13_SVC..];
    }
  }

  lemma RegisterConfined(s: State, r: nat, value: word)
    requires s.Valid() && r < 16
    ensures Confined(s, s.(regs := s.regs[r := value]))
  {
  }

  lemma TransferConfined(s: State, ins: word)
    requires s.Valid() && LS.Accessible(s, ins)
    ensures Confined(s, LS.Transfer(s, ins))
  {
    if LBit(ins) == 1 {
      RegisterConfined(s, Rd(ins), LS.Transfer(s, ins).regs[Rd(ins)]);
    }
  }

  lemma BranchConfined(s: State, ins: word)
    requires s.Valid()
    ensures Confined(s, s.(regs := BranchRegs(s.regs, ins)))
  {
  }

  lemma MiscellaneousConfined(s: State, ins: word)
    requires s.Valid()
    ensures Miscellaneous(s, ins).Returned? ==> Confined(s, Miscellaneous(s, ins).value.state)
  {
    if Miscellaneous(s, ins).Returned? {
      RegisterConfined(s, Rd(ins), Miscellaneous(s, ins).value.state.regs[Rd(ins)]);
    }
  }

  lemma TransfersConfined(s: State, ins: word)
    requires Executable(s, ins) && 2 <= Class(ins) <= 4
    ensures Dispatch(s, ins).Returned? && Confined(s, Dispatch(s, ins).value.state)
  {
    if Class(ins) == 4 {
      assert Dispatch(s, ins) == Returned(Done(LSM.Execute(s, ins), 0));
      BlockConfined(s, ins);
    } else {
      assert Dispatch(s, ins) == Returned(Done(LS.Transfer(s, ins), 0));
      TransferConfined(s, ins);
    }
  }

  lemma OthersConfined(s: State, ins: word)
    requires Executable(s, ins) && (Class(ins) >= 5 || IsMiscellaneous(ins))
    ensures Dispatch(s, ins).Returned? ==> Confined(s, Dispatch(s, ins).value.state)
  {
    BranchConfined(s, ins);
    MiscellaneousConfined(s, ins);
    if Idle(ins) {
      IdleEffect(s, ins);
    }
  }

  lemma DispatchConfined(s: State, ins: word)
    requires Executable(s, ins) && !HasSpsr(s.mode)
    ensures Dispatch(s, ins).Returned? ==> Confined(s, Dispatch(s, ins).value.state)
  {
    if IsDataProcessing(ins) {
      ProcessConfined(s, ins);
    } else if 2 <= Class(ins) <= 4 {
      TransfersConfined(s, ins);
    } else {
      OthersConfined(s, ins);
    }
  }

  predicate IsStoreWord(ins: word) {
    2 <= Class(ins) <= 4 && LBit(ins) == 0
  }

  /** Only the three classes of stores change memory. */
  lemma OnlyStoresChangeMemory(s: State, ins: word)
    requires Executable(s, ins) && !IsStoreWord(ins)
    ensures Dispatch(s, ins).Returned? ==> Dispatch(s, ins).value.state.mem == s.mem
  {
    if IsDataProcessing(ins) {
      ProcessFrame(s, ins);
    }
  }

  lemma ConfinedTwice(s: State, t: State, u: State)
    requires Confined(s, t) && Confined(t, u)
    ensures Confined(s, u)
  {
  }

  /** `t` is the state one step after `s`. */
  predicate StepsTo(s: State, t: State) {
    CanStep(s) && Step(s).Returned? && Step(s).value.state == t
  }

  lemma StepConfined(s: State, t: State)
    requires StepsTo(s, t) && s.mode == USR
    ensures Confined(s, t)
  {
    var f, ins := Fetched(s), Instruction(s);
    assert Dispatch(f, ins).Returned? && Dispatch(f, ins).value.state == t;
    DispatchConfined(f, ins);
    RegisterConfined(s, PC, f.regs[PC]);
    ConfinedTwice(s, f, t);
  }

  predicate StepAt(states: seq<State>, k: nat)
    requires k + 1 < |states|
  {
    StepsTo(states[k], states[k + 1])
  }

  /** The states of a run, every step defined in the C and none ending the program. */
  ghost predicate IsRun(states: seq<State>) {
    |states| > 0 && forall k: nat :: k + 1 < |states| ==> StepAt(states, k)
  }

  lemma StepAtConfined(states: seq<State>, k: nat)
    requires IsRun(states) && k + 1 < |states| && states[k].mode == USR
    ensures Confined(states[k], states[k + 1])
  {
    assert StepAt(states, k);
    StepConfined(states[k], states[k + 1]);
  }

  /** So is every run: a program started in USR stays there, with the privileged registers and the
      CPSR's control bits as they were, whatever its instructions. */
  lemma {:induction false} RunsConfined(states: seq<State>, k: nat)
    requires IsRun(states) && states[0].Valid() && states[0].mode == USR && k < |states|
    ensures Confined(states[0], states[k])
    decreases k
  {
    if k > 0 {
      RunsConfined(states, k - 1);
      StepAtConfined(states, k - 1);
      ConfinedTwice(states[0], states[k - 1], states[k]);
    }
  }

  /** From reset, where arm_create leaves USR and the CPSR at 0x1d3, every run keeps 0x1d3 in the
      CPSR's 28 low bits: the program can only ever move N, Z, C and V. */
  lemma ControlBitsFromReset(states: seq<State>, k: nat)
    requires IsRun(states) && states[0].Valid() && states[0].mode == USR && states[0].regs[CPSR] == 0x1d3
    requires k < |states|
    ensures states[k].Valid() && Low(states[k].regs[CPSR], 28) == 0x1d3
  {
    RunsConfined(states, k);
    ResetValue();
  }

  lemma ResetValue()
    ensures Low(0x1d3, 28) == 0x1d3
  {
    FieldSizes();
    Pow2Add(12, 16);
    LowOfSmall(0x1d3, 28);
  }
}
