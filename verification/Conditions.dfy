/** condition_OK of arm_instruction.c, and where it meets the condition table of
    section A3.2 of ARM DDI 0100. */
module Conditions {
  import opened Bits
  import opened Registers
  import opened ArmCore
  import opened Fields

  const EQ := 0
  const NE := 1
  const CS_HS := 2
  const CC_LO := 3
  const MI := 4
  const PL := 5
  const VS := 6
  const VC := 7
  const HI := 8
  const LS := 9
  const GE := 10
  const LT := 11
  const GT := 12
  const LE := 13
  const AL := 14
  const UX := 15

  /** MI has no `break` in the source, so PL's test is the one that counts for it. */
  predicate ConditionOK(condition: byte, n: nat, z: nat, c: nat, v: nat) {
    if condition == EQ then z == 1
    else if condition == NE then z == 0
    else if condition == CS_HS then c == 1
    else if condition == CC_LO then c == 0
    else if condition == MI then n == 0
    else if condition == PL then n == 0
    else if condition == VS then v == 1
    else if condition == VC then v == 0
    else if condition == HI then c == 1 && z == 0
    else if condition == LS then c == 0 && z == 1
    else if condition == GE then n == v
    else if condition == LT then n != v
    else if condition == GT then z == 0 && n == v
    else if condition == LE then z == 1 && n != v
    else condition == AL || condition == UX
  }

  predicate Passes(s: State, ins: word)
    requires |s.regs| == SLOTS
  {
    ConditionOK(Cond(ins), Flag(s.regs, 31), Flag(s.regs, 30), Flag(s.regs, 29), Flag(s.regs, 28))
  }

  /** condition_OK on the four current flags. */
  method TestCondition(p: Core, cond: byte) returns (passes: bool)
    requires p.Valid()
    ensures passes == ConditionOK(cond, Flag(p.reg.regs[..], 31), Flag(p.reg.regs[..], 30),
                                  Flag(p.reg.regs[..], 29), Flag(p.reg.regs[..], 28))
  {
    var n := p.GetFlag(31);
    var z := p.GetFlag(30);
    var c := p.GetFlag(29);
    var v := p.GetFlag(28);
    passes := ConditionOK(cond, n, z, c, v);
  }

  /** The table of section A3.2: conditions come in pairs, the odd one negating the even one. */
  predicate Base(pair: nat, n: bool, z: bool, c: bool, v: bool) {
    match pair
    case 0 => z
    case 1 => c
    case 2 => n
    case 3 => v
    case 4 => c && !z
    case 5 => n == v
    case 6 => !z && n == v
    case _ => true
  }

  predicate Architectural(condition: nat, n: bool, z: bool, c: bool, v: bool) {
    if condition >= AL then true
    else if condition % 2 == 0 then Base(condition / 2, n, z, c, v)
    else !Base(condition / 2, n, z, c, v)
  }

  /** The manual's answer for the current flags. */
  predicate ShouldPass(s: State, ins: word)
    requires |s.regs| == SLOTS
  {
    Architectural(Cond(ins), Flag(s.regs, 31) == 1, Flag(s.regs, 30) == 1, Flag(s.regs, 29) == 1,
                  Flag(s.regs, 28) == 1)
  }

  /** The code decides as the table does, except for MI always, for LS when Z and C agree,
      and for LE when Z is set exactly where N and V agree. */
  lemma WhereConditionsAgree(condition: byte, n: nat, z: nat, c: nat, v: nat)
    requires condition < 16 && n <= 1 && z <= 1 && c <= 1 && v <= 1
    ensures (ConditionOK(condition, n, z, c, v) == Architectural(condition, n == 1, z == 1, c == 1, v == 1))
       <==> !(condition == MI || (condition == LS && z == c) || (condition == LE && (z == 1) == (n == v)))
  {
    assert condition / 2 * 2 + condition % 2 == condition;
  }

  /** MI passes on a result that is not negative, LS fails on equal operands, LE fails on equal operands. */
  lemma ConditionsThatFail()
    ensures ConditionOK(MI, 0, 0, 0, 0) && !Architectural(MI, false, false, false, false)
    ensures !ConditionOK(LS, 0, 1, 1, 0) && Architectural(LS, false, true, true, false)
    ensures !ConditionOK(LE, 0, 1, 1, 0) && Architectural(LE, false, true, true, false)
  {
  }
}
