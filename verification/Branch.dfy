/** arm_branch of arm_branch_other.c: B and BL. */
module Branch {
  import opened Bits
  import opened Util
  import opened Registers
  import opened ArmCore
  import opened Fields

  function Immediate24(ins: word): (r: nat)
    ensures r < 0x100_0000
  {
    FieldSizes();
    GetBits(ins, 23, 0)
  }

  /** The 24-bit immediate as a signed number. */
  function SignExtended(imm: nat): int
    requires imm < 0x100_0000
  {
    if imm >= 0x80_0000 then imm - 0x100_0000 else imm
  }

  /** Section A4.1.5: the PC value read, plus four times the signed immediate. */
  function Target(pc: word, imm: nat): word
    requires imm < 0x100_0000
  {
    Wrap(pc + 4 * SignExtended(imm))
  }

  function BranchRegs(regs: seq<word>, ins: word): seq<word>
    requires |regs| == SLOTS
  {
    var pc := ReadReg(regs, PC);
    (if GetBit(ins, 24) == 1 then regs[14 := pc] else regs)[PC := Target(pc, Immediate24(ins))]
  }

  lemma TopOf24(v: nat)
    requires v < 0x100_0000
    ensures Bit(v, 23) == 1 <==> v >= 0x80_0000
  {
    FieldSizes();
    assert 2 * Pow2(23) == Pow2(24);
    BitIsDigit(v, 23);
  }

  lemma TopOfImmediate(ins: word)
    ensures GetBit(ins, 23) == 1 <==> Immediate24(ins) >= 0x80_0000
  {
    BitOfGetBits(ins, 23, 0, 23);
    TopOf24(Immediate24(ins));
  }

  /** `imm << 2`, with six ones above a negative immediate. */
  lemma Displacement(imm: word)
    requires imm < 0x100_0000
    ensures imm < 0x80_0000 ==> Shl(imm, 2) == Wrap(4 * SignExtended(imm))
    ensures imm >= 0x80_0000 ==> Shl(Or(imm, 0x3F00_0000), 2) == Wrap(4 * SignExtended(imm))
  {
    FieldSizes();
    if imm < 0x80_0000 {
      DoubledIsProduct(imm, 2);
    } else {
      DoubledIsProduct(0x3F, 24);
      OrDisjoint(0x3F, imm, 24);
      var w: int := Or(imm, 0x3F00_0000);
      assert w == 0x3F00_0000 + imm;
      DoubledIsProduct(w, 2);
    }
  }

  lemma TargetFrom(pc: word, imm: nat, res: word)
    requires imm < 0x100_0000 && res == Wrap(4 * SignExtended(imm))
    ensures Wrap(res as int + pc as int) == Target(pc, imm)
  {
    WrapAdds(4 * SignExtended(imm), pc);
  }

  method ArmBranch(p: Core, ins: word)
    requires p.Valid()
    modifies p.reg.regs
    ensures p.View() == old(p.View()).(regs := BranchRegs(old(p.reg.regs[..]), ins))
  {
    if GetBit(ins, 24) == 1 {
      var link := p.ReadRegister(15);
      p.WriteRegister(14, link);
    }
    var imm, res := Immediate24(ins), 0;
    TopOfImmediate(ins);
    Displacement(imm);
    if GetBit(ins, 23) == 1 {
      res := Shl(Or(imm, 0x3F00_0000), 2);
    } else {
      res := Shl(imm, 2);
    }
    var pc := p.ReadRegister(15);
    TargetFrom(pc, imm, res);
    p.WriteRegister(15, Wrap(res as int + pc as int));
  }

  // ----- Targets -----

  lemma DistinctTargets(pc: word, i: nat, j: nat)
    requires i < 0x100_0000 && j < 0x100_0000
    ensures Target(pc, i) == Target(pc, j) <==> i == j
  {
  }

  /** Branching by a displacement and then by its opposite comes back. */
  lemma OppositeDisplacementsCancel(pc: word, i: nat, j: nat)
    requires i < 0x100_0000 && j < 0x100_0000 && SignExtended(i) == -SignExtended(j)
    ensures Target(Target(pc, i), j) == pc
  {
    WrapAdds(pc + 4 * SignExtended(i), 4 * SignExtended(j));
  }

  lemma LowMask30(q: nat)
    requires q < 0x4000_0000
    ensures Combine(AndGate, q, 0x3FFF_FFFF) == q
  {
    Pow2At32();
    assert 4 * Pow2(30) == Pow2(32);
    AndMask(q, 30);
    LowOfSmall(q, 30);
  }

  lemma EvenMaskStep(x: nat)
    ensures Combine(AndGate, x, 0x7FFF_FFFE) == 2 * Combine(AndGate, x / 2, 0x3FFF_FFFF)
  {
    CombineStep(AndGate, x, 0x7FFF_FFFE);
  }

  lemma OddMaskStep(y: nat)
    ensures Combine(AndGate, y, 0xFFFF_FFFD) == 2 * Combine(AndGate, y / 2, 0x7FFF_FFFE) + y % 2
  {
    CombineStep(AndGate, y, 0xFFFF_FFFD);
  }

  lemma ClearBit1(y: word)
    ensures And(y, 0xFFFF_FFFD) == 4 * (y / 4) + y % 2
  {
    var half: int := y / 2;
    assert half / 2 == y / 4;
    OddMaskStep(y);
    EvenMaskStep(half);
    LowMask30(half / 2);
  }

  lemma AlignedRead(pc: word)
    requires pc % 4 == 0
    ensures PcRead(pc) == Wrap(pc + 4)
  {
    AlignedAfterWrap(pc + 4);
    ClearBit1(Wrap(pc + 4));
  }

  lemma AlignedFetch(pc: word)
    requires pc % 4 == 0
    ensures FetchAddress(pc) == pc
  {
    AlignedRead(pc);
    WrapAdds(pc + 4, -4);
  }

  /** A word-aligned PC is fetched from where it stands, and read 4 further on. */
  lemma AlignedPc(x: int)
    requires x % 4 == 0
    ensures PcRead(Wrap(x)) == Wrap(x + 4) && FetchAddress(Wrap(x)) == Wrap(x)
  {
    AlignedAfterWrap(x);
    AlignedRead(Wrap(x));
    AlignedFetch(Wrap(x));
    WrapAdds(x, 4);
  }

  /** The registers while the instruction fetched from `address` executes. */
  predicate Executing(regs: seq<word>, address: word) {
    |regs| == SLOTS && regs[PC] == Wrap(address + 4)
  }

  lemma ReadWhileExecuting(regs: seq<word>, address: word)
    requires address % 4 == 0 && Executing(regs, address)
    ensures ReadReg(regs, PC) == Wrap(address + 8)
  {
    AlignedPc(address + 4);
  }

  lemma NextFetch(address: word, imm: nat)
    requires address % 4 == 0 && imm < 0x100_0000
    ensures FetchAddress(Target(Wrap(address + 8), imm)) == Wrap(address + 8 + 4 * SignExtended(imm))
  {
    var next: int := address + 8 + 4 * SignExtended(imm);
    assert Target(Wrap(address + 8), imm) == Wrap(next) by {
      WrapAdds(address + 8, 4 * SignExtended(imm));
    }
    AlignedPc(next);
  }

  lemma ReturnFetch(address: word)
    requires address % 4 == 0
    ensures FetchAddress(Wrap(address + 8)) == Wrap(address + 8) != Wrap(address + 4)
  {
    AlignedPc(address + 8);
  }

  lemma PcReadIs(pc: word)
    ensures PcRead(pc) as int == Wrap(pc + 4) as int - if pc % 4 < 2 then 0 else 2
  {
    ClearBit1(Wrap(pc + 4));
    WithoutBit1(Wrap(pc + 4));
    FourOn(pc);
  }

  lemma WithoutBit1(y: nat)
    ensures 4 * (y / 4) + y % 2 == y - if y % 4 < 2 then 0 else 2
  {
    var q, r := y / 4, y % 4;
    assert y == 4 * q + r;
    assert y % 2 == if r == 0 || r == 2 then 0 else 1;
  }

  lemma FourOn(pc: word)
    ensures Wrap(pc + 4) % 4 == pc % 4
  {
  }

  lemma OnTheSpot(pc: word, d: int)
    requires -0x80_0000 <= d < 0x80_0000
    ensures Wrap(pc + 4 + 4 * d) == pc <==> d == -1
    ensures Wrap(pc + 2 + 4 * d) != pc
  {
  }

  lemma TargetIsPc(pc: word, imm: nat)
    requires imm < 0x100_0000
    ensures Target(PcRead(pc), imm) == pc <==> pc % 4 < 2 && imm == 0xFF_FFFF
  {
    var d: int := SignExtended(imm);
    PcReadIs(pc);
    OnTheSpot(pc, d);
    WrapAdds(pc + 4, 4 * d);
    WrapAdds(pc + 4, 4 * d - 2);
  }

  /** A branch leaves the registers as they were exactly when it goes back to where the PC stands, which the
      displacement -1 does, and for BL when R14 already holds the PC value read. */
  lemma WhereBranchStandsStill(regs: seq<word>, ins: word)
    requires |regs| == SLOTS
    ensures BranchRegs(regs, ins) == regs
       <==> regs[PC] % 4 < 2 && Immediate24(ins) == 0xFF_FFFF
            && (GetBit(ins, 24) == 1 ==> regs[14] == ReadReg(regs, PC))
  {
    TargetIsPc(regs[PC], Immediate24(ins));
    var t := BranchRegs(regs, ins);
    assert t[PC] == Target(ReadReg(regs, PC), Immediate24(ins));
    assert t[14] == if GetBit(ins, 24) == 1 then ReadReg(regs, PC) else regs[14];
    assert forall r :: 0 <= r < SLOTS && r != PC && r != 14 ==> t[r] == regs[r];
    if t[PC] == regs[PC] && t[14] == regs[14] {
      assert t == regs;
    }
  }

  /** A branch fetched from a word-aligned address A makes A + 8 + 4 * offset the next fetch. */
  lemma BranchFetch(regs: seq<word>, address: word, ins: word)
    requires address % 4 == 0 && Executing(regs, address)
    ensures FetchAddress(BranchRegs(regs, ins)[PC]) == Wrap(address + 8 + 4 * SignExtended(Immediate24(ins)))
  {
    ReadWhileExecuting(regs, address);
    calc {
      FetchAddress(BranchRegs(regs, ins)[PC]);
      FetchAddress(Target(Wrap(address + 8), Immediate24(ins)));
      { NextFetch(address, Immediate24(ins)); }
      Wrap(address + 8 + 4 * SignExtended(Immediate24(ins)));
    }
  }

  /** BL leaves A + 8 in R14, so a return through R14 fetches A + 8, where section A4.1.5 wants A + 4:
      one instruction is lost.  B leaves R14 alone. */
  lemma ReturnAddress(regs: seq<word>, address: word, ins: word)
    requires address % 4 == 0 && Executing(regs, address)
    ensures GetBit(ins, 24) == 0 ==> BranchRegs(regs, ins)[14] == regs[14]
    ensures GetBit(ins, 24) == 1 ==>
              && FetchAddress(BranchRegs(regs, ins)[14]) == BranchRegs(regs, ins)[14]
              && BranchRegs(regs, ins)[14] == Wrap(address + 8) != Wrap(address + 4)
  {
    ReadWhileExecuting(regs, address);
    ReturnFetch(address);
  }
}
