/** arm_load_store of arm_load_store.c: LDR, LDRB, STR and STRB in nine addressing forms. */
module LoadStore {
  import opened Bits
  import opened Util
  import opened Memory
  import opened Registers
  import opened ArmCore
  import opened Conditions
  import opened Fields

  // ----- The index of the scaled register forms -----

  /** Section A5.2: an amount of 0 means 32 for LSR and ASR, and a rotation of the
      33 bits C:Rm by one place for ROR. */
  function ScaledIndex(shift: nat, rm: word, amount: nat, c: nat): word
    requires amount < 32 && c <= 1
  {
    var places := if amount == 0 then 32 else amount;
    if shift == LSL then Wrap(Doubled(rm, amount))
    else if shift == LSR then Halved(rm, places)
    else if shift == ASR then Wrap(Halved(Signed(rm), places))
    else if amount == 0 then (c * 0x1_0000_0000 + rm) / 2
    else Wrap(Halved(rm, amount) + Doubled(Low(rm, amount), 32 - amount))
  }

  /** The index in arithmetic terms: a product, floors of quotients, a rotation. */
  lemma ScaledIndexMeaning(rm: word, amount: nat, c: nat)
    requires amount < 32 && c <= 1
    ensures var places := if amount == 0 then 32 else amount;
            && ScaledIndex(LSL, rm, amount, c) == Wrap(rm * Pow2(amount))
            && ScaledIndex(LSR, rm, amount, c) == rm / Pow2(places)
            && ScaledIndex(ASR, rm, amount, c) == Wrap(Signed(rm) / Pow2(places))
    ensures ScaledIndex(ROR, rm, amount, c) ==
            if amount == 0 then (c * 0x1_0000_0000 + rm) / 2
            else rm / Pow2(amount) + rm % Pow2(amount) * Pow2(32 - amount)
  {
    var places := if amount == 0 then 32 else amount;
    ShiftMeaning(rm, amount);
    HalvedIsQuotient(rm, places);
    HalvedIsQuotient(Signed(rm), places);
    if amount > 0 {
      RorMeaning(rm, amount);
      RorIndex(rm, amount);
    }
  }

  lemma ShiftBy32(rm: word)
    ensures Halved(rm, 32) == 0
    ensures Wrap(Halved(Signed(rm), 32)) == if GetBit(rm, 31) == 1 then 0xFFFF_FFFF else 0
  {
    Pow2At32();
    HalvedPastSign(rm, 32, 32);
    SignFill(rm, 32);
  }

  lemma RorIndex(rm: word, amount: nat)
    requires amount < 32
    ensures Ror(rm, amount) == Wrap(Halved(rm, amount) + Doubled(Low(rm, amount), 32 - amount))
  {
    RorSplit(rm, amount);
  }

  lemma IndexCases(rm: word, amount: nat, c: nat)
    requires amount < 32 && c <= 1
    ensures ScaledIndex(LSL, rm, amount, c) == Shl(rm, amount)
    ensures ScaledIndex(LSR, rm, amount, c) == if amount == 0 then 0 else Shr(rm, amount)
    ensures ScaledIndex(ASR, rm, amount, c) ==
            if amount > 0 then Asr(rm, amount) else if GetBit(rm, 31) == 1 then 0xFFFF_FFFF else 0
    ensures ScaledIndex(ROR, rm, amount, c) == if amount == 0 then Or(Shl(c, 31), Shr(rm, 1)) else Ror(rm, amount)
  {
    ShiftBy32(rm);
    if amount == 0 {
      RrxMeaning(c, rm);
    } else {
      AsrMeaning(rm, amount);
      RorIndex(rm, amount);
    }
  }

  // The source writes the block out three times, once for each form.

  method IndexForOffset(rm: word, shift: nat, shiftImm: nat, cpsr: word) returns (index: word)
    requires shift < 4 && shiftImm < 32
    ensures index == ScaledIndex(shift, rm, shiftImm, Bit(cpsr, 29))
  {
    IndexCases(rm, shiftImm, Bit(cpsr, 29));
    match shift {
      case 0 =>
        index := Shl(rm, shiftImm);
      case 1 =>
        if shiftImm == 0 {
          index := 0;
        } else {
          index := Shr(rm, shiftImm);
        }
      case 2 =>
        if shiftImm == 0 {
          if GetBit(rm, 31) == 1 {
            index := 0xFFFF_FFFF;
          } else {
            index := 0;
          }
        } else {
          index := Asr(rm, shiftImm);
        }
      case _ =>
        if shiftImm == 0 {
          index := Or(Shl(GetBit(cpsr, 29), 31), Shr(rm, 1));
        } else {
          index := Ror(rm, shiftImm);
        }
    }
  }

  method IndexForPreIndexed(rm: word, shift: nat, shiftImm: nat, cpsr: word) returns (index: word)
    requires shift < 4 && shiftImm < 32
    ensures index == ScaledIndex(shift, rm, shiftImm, Bit(cpsr, 29))
  {
    IndexCases(rm, shiftImm, Bit(cpsr, 29));
    match shift {
      case 0 =>
        index := Shl(rm, shiftImm);
      case 1 =>
        if shiftImm == 0 {
          index := 0;
        } else {
          index := Shr(rm, shiftImm);
        }
      case 2 =>
        if shiftImm == 0 {
          if GetBit(rm, 31) == 1 {
            index := 0xFFFF_FFFF;
          } else {
            index := 0;
          }
        } else {
          index := Asr(rm, shiftImm);
        }
      case _ =>
        if shiftImm == 0 {
          index := Or(Shl(GetBit(cpsr, 29), 31), Shr(rm, 1));
        } else {
          index := Ror(rm, shiftImm);
        }
    }
  }

  method IndexForPostIndexed(rm: word, shift: nat, shiftImm: nat, cpsr: word) returns (index: word)
    requires shift < 4 && shiftImm < 32
    ensures index == ScaledIndex(shift, rm, shiftImm, Bit(cpsr, 29))
  {
    IndexCases(rm, shiftImm, Bit(cpsr, 29));
    match shift {
      case 0 =>
        index := Shl(rm, shiftImm);
      case 1 =>
        if shiftImm == 0 {
          index := 0;
        } else {
          index := Shr(rm, shiftImm);
        }
      case 2 =>
        if shiftImm == 0 {
          if GetBit(rm, 31) == 1 {
            index := 0xFFFF_FFFF;
          } else {
            index := 0;
          }
        } else {
          index := Asr(rm, shiftImm);
        }
      case _ =>
        if shiftImm == 0 {
          index := Or(Shl(GetBit(cpsr, 29), 31), Shr(rm, 1));
        } else {
          index := Ror(rm, shiftImm);
        }
    }
  }

  // ----- Addresses -----

  /** The encodings for which the code sets `address`. */
  predicate Defined(ins: word) {
    && (Class(ins) == 2 || (Class(ins) == 3 && GetBit(ins, 4) == 0))
    && (PBit(ins) == 1 || WBit(ins) == 0)
  }

  /** The offset: an immediate, a register, or a shifted register. */
  function OffsetOf(regs: seq<word>, ins: word): word
    requires |regs| == SLOTS && Defined(ins)
  {
    if Class(ins) == 2 then Immediate12(ins)
    else if GetBits(ins, 11, 4) == 0 then ReadReg(regs, Rm(ins))
    else ScaledIndex(ShiftCode(ins), ReadReg(regs, Rm(ins)), ShiftAmount(ins), Flag(regs, 29))
  }

  /** The base with the offset added or subtracted. */
  function Indexed(regs: seq<word>, ins: word): word
    requires |regs| == SLOTS && Defined(ins)
  {
    var rn: int, offset: int := ReadReg(regs, Rn(ins)), OffsetOf(regs, ins);
    if UBit(ins) == 1 then Wrap(rn + offset) else Wrap(rn - offset)
  }

  /** Post-indexed forms access the base itself. */
  function EffectiveAddress(regs: seq<word>, ins: word): word
    requires |regs| == SLOTS && Defined(ins)
  {
    if PBit(ins) == 1 then Indexed(regs, ins) else ReadReg(regs, Rn(ins))
  }

  /** Immediate offset, pre-indexed and post-indexed. */
  method ImmediateAddress(p: Core, ins: word, rn: int, P: nat, W: nat, U: nat, passes: bool)
    returns (address: word, newBase: word)
    requires p.Valid() && Defined(ins) && Class(ins) == 2
    requires rn == ReadReg(p.reg.regs[..], Rn(ins)) && P == PBit(ins) && W == WBit(ins) && U == UBit(ins)
    ensures address == EffectiveAddress(p.reg.regs[..], ins)
    ensures newBase == if passes && (P == 0 || W == 1) then Indexed(p.reg.regs[..], ins) else rn
  {
    newBase := rn;
    var offset12: int := Immediate12(ins);
    if P == 1 && W == 0 {
      if U == 1 {
        address := Wrap(rn + offset12);
      } else {
        address := Wrap(rn - offset12);
      }
    } else if P == 1 && W == 1 {
      if U == 1 {
        address := Wrap(rn + offset12);
      } else {
        address := Wrap(rn - offset12);
      }
      if passes {
        newBase := address;
      }
    } else {
      address := rn;
      if passes {
        if U == 1 {
          newBase := Wrap(rn + offset12);
        } else {
          newBase := Wrap(rn - offset12);
        }
      }
    }
  }

  /** Register offset, pre-indexed and post-indexed. */
  method RegisterAddress(p: Core, ins: word, rn: int, P: nat, W: nat, U: nat, passes: bool)
    returns (address: word, newBase: word)
    requires p.Valid() && Defined(ins) && Class(ins) == 3 && GetBits(ins, 11, 4) == 0
    requires rn == ReadReg(p.reg.regs[..], Rn(ins)) && P == PBit(ins) && W == WBit(ins) && U == UBit(ins)
    ensures address == EffectiveAddress(p.reg.regs[..], ins)
    ensures newBase == if passes && (P == 0 || W == 1) then Indexed(p.reg.regs[..], ins) else rn
  {
    newBase := rn;
    var rm: int := p.ReadRegister(Rm(ins));
    if P == 1 && W == 0 {
      if U == 1 {
        address := Wrap(rn + rm);
      } else {
        address := Wrap(rn - rm);
      }
    } else if P == 1 && W == 1 {
      if U == 1 {
        address := Wrap(rn + rm);
      } else {
        address := Wrap(rn - rm);
      }
      if passes {
        newBase := address;
      }
    } else {
      address := rn;
      if passes {
        if U == 1 {
          newBase := Wrap(rn + rm);
        } else {
          newBase := Wrap(rn - rm);
        }
      }
    }
  }

  /** Scaled register offset, pre-indexed and post-indexed. */
  method ScaledAddress(p: Core, ins: word, rn: int, P: nat, W: nat, U: nat, passes: bool)
    returns (address: word, newBase: word)
    requires p.Valid() && Defined(ins) && Class(ins) == 3 && GetBits(ins, 11, 4) != 0
    requires rn == ReadReg(p.reg.regs[..], Rn(ins)) && P == PBit(ins) && W == WBit(ins) && U == UBit(ins)
    ensures address == EffectiveAddress(p.reg.regs[..], ins)
    ensures newBase == if passes && (P == 0 || W == 1) then Indexed(p.reg.regs[..], ins) else rn
  {
    newBase := rn;
    var shiftImm, shift := ShiftAmount(ins), ShiftCode(ins);
    var rm := p.ReadRegister(Rm(ins));
    var cpsr := p.ReadCpsr();
    var index: int;
    if P == 1 && W == 0 {
      index := IndexForOffset(rm, shift, shiftImm, cpsr);
      if U == 1 {
        address := Wrap(rn + index);
      } else {
        address := Wrap(rn - index);
      }
    } else if P == 1 && W == 1 {
      index := IndexForPreIndexed(rm, shift, shiftImm, cpsr);
      if U == 1 {
        address := Wrap(rn + index);
      } else {
        address := Wrap(rn - index);
      }
      if passes {
        newBase := address;
      }
    } else {
      address := rn;
      index := IndexForPostIndexed(rm, shift, shiftImm, cpsr);
      if passes {
        if U == 1 {
          newBase := Wrap(rn + index);
        } else {
          newBase := Wrap(rn - index);
        }
      }
    }
  }

  /** The nine forms.  The new base stays in the local `rn`; no caller stores it. */
  method Address(p: Core, ins: word) returns (address: word, rn: word)
    requires p.Valid() && Defined(ins)
    ensures address == EffectiveAddress(p.reg.regs[..], ins)
    ensures rn == if Passes(p.View(), ins) && (PBit(ins) == 0 || WBit(ins) == 1) then Indexed(p.reg.regs[..], ins)
                  else ReadReg(p.reg.regs[..], Rn(ins))
  {
    rn := p.ReadRegister(Rn(ins));
    var W, U, P := WBit(ins), UBit(ins), PBit(ins);
    var passes := TestCondition(p, Cond(ins));
    if Class(ins) == 2 {
      address, rn := ImmediateAddress(p, ins, rn, P, W, U, passes);
    } else if GetBits(ins, 11, 4) == 0 {
      address, rn := RegisterAddress(p, ins, rn, P, W, U, passes);
    } else {
      address, rn := ScaledAddress(p, ins, rn, P, W, U, passes);
    }
  }

  // ----- The instruction -----

  function AccessWidth(ins: word): Width {
    if BBit(ins) == 1 then W8 else W32
  }

  /** The value the instruction stores: a byte store truncates. */
  function StoredValue(regs: seq<word>, ins: word): word
    requires |regs| == SLOTS
  {
    if BBit(ins) == 1 then ReadReg(regs, Rd(ins)) % 0x100 else ReadReg(regs, Rd(ins))
  }

  predicate Accessible(s: State, ins: word) {
    && |s.regs| == SLOTS && Defined(ins)
    && InBounds(|s.mem|, EffectiveAddress(s.regs, ins), AccessWidth(ins).Bytes())
  }

  /** The condition field plays no part: dispatch reaches here whether or not it passed. */
  function Transfer(s: State, ins: word): State
    requires Accessible(s, ins)
  {
    var a, w := EffectiveAddress(s.regs, ins), AccessWidth(ins);
    if LBit(ins) == 1 then s.(regs := s.regs[Rd(ins) := Load(s.mem, s.be, w, a)])
    else s.(mem := Store(s.mem, s.be, w, a, StoredValue(s.regs, ins)))
  }

  method ArmLoadStore(p: Core, ins: word)
    requires p.Valid() && Accessible(p.View(), ins)
    modifies p.reg.regs, p.mem.octets
    ensures p.View() == Transfer(old(p.View()), ins)
  {
    var rd, L, B := Rd(ins), LBit(ins), BBit(ins);
    var address, _ := Address(p, ins);
    if L == 1 {
      if B == 1 {
        var _, b := p.ReadByte(address);
        p.WriteRegister(rd, b);
      } else {
        var _, w := p.ReadWord(address);
        p.WriteRegister(rd, w);
      }
    } else {
      var value := p.ReadRegister(rd);
      if B == 1 {
        var _ := p.WriteByte(address, value % 0x100);
      } else {
        var _ := p.WriteWord(address, value);
      }
    }
  }
}
