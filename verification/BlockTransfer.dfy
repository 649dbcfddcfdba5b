/** What LDM and STM achieve: layout, frame, round trips and complementary modes. */
module BlockTransfer {
  import opened Bits
  import opened Util
  import opened Memory
  import opened MemoryMap
  import opened Alignment
  import opened Registers
  import opened ArmCore
  import opened Conditions
  import opened Fields
  import opened LoadStoreMultiple

  // ----- Which bytes belong to which register -----

  lemma SlotBytes(list: half, start: word, r: nat, x: nat)
    requires r <= 16 && x < 0x1_0000_0000
    ensures Covers(Slot(list, start, r), 4, x) <==> 4 * Rank(list, r) <= Offset(start, x) < 4 * Rank(list, r) + 4
  {
    OffsetFromLater(start, 4 * Rank(list, r), x);
  }

  lemma RankGrows(list: half, r: nat, i: nat)
    requires r < i && Bit(list, r) == 1
    ensures Rank(list, r) + 1 <= Rank(list, i)
  {
    RankMonotone(list, r + 1, i);
  }

  lemma LaterSlotMisses(list: half, start: word, r: nat, i: nat, x: nat)
    requires r < i <= 16 && Bit(list, r) == 1 && Covers(Slot(list, start, r), 4, x)
    ensures !Covers(Slot(list, start, i), 4, x)
  {
    RankGrows(list, r, i);
    SlotBytes(list, start, r, x);
    SlotBytes(list, start, i, x);
  }

  lemma {:induction false} StoredRegisterBytes(m: seq<byte>, be: bool, regs: seq<word>, list: half, start: word,
                                               i: nat, r: nat, x: nat)
    requires |regs| == SLOTS && r < i <= 16 && Bit(list, r) == 1
    requires x < |m| && Covers(Slot(list, start, r), 4, x)
    ensures StmMem(m, be, regs, list, start, i)[x]
         == ByteAt(be, W32, ReadReg(regs, r), Offset(Slot(list, start, r), x))
    decreases i
  {
    if r < i - 1 {
      StoredRegisterBytes(m, be, regs, list, start, i - 1, r, x);
      LaterSlotMisses(list, start, r, i - 1, x);
    }
  }

  lemma {:induction false} OtherBytesKept(m: seq<byte>, be: bool, regs: seq<word>, list: half, start: word,
                                          i: nat, x: nat)
    requires |regs| == SLOTS && i <= 16
    requires x < |m| && !Covers(start, 4 * Rank(list, i), x)
    ensures StmMem(m, be, regs, list, start, i)[x] == m[x]
    decreases i
  {
    if i > 0 {
      OtherBytesKept(m, be, regs, list, start, i - 1, x);
      if x < 0x1_0000_0000 {
        SlotBytes(list, start, i - 1, x);
      }
    }
  }

  lemma StoredRegister(m: seq<byte>, be: bool, regs: seq<word>, list: half, start: word, r: nat)
    requires |regs| == SLOTS && r < 16 && Bit(list, r) == 1
    requires InBounds(|m|, start, 4 * Count(list))
    ensures InBounds(|m|, Slot(list, start, r), 4)
    ensures Load(StmMem(m, be, regs, list, start, 16), be, W32, Slot(list, start, r)) == ReadReg(regs, r)
  {
    var a, m' := Slot(list, start, r), StmMem(m, be, regs, list, start, 16);
    SlotInBlock(|m|, list, start, r);
    forall k: nat | k < 4
      ensures Addr(a, k) < |m| && m'[Addr(a, k)] == ByteAt(be, W32, ReadReg(regs, r), k)
    {
      OffsetOfAddr(a, k);
      StoredRegisterBytes(m, be, regs, list, start, 16, r, Addr(a, k));
    }
    LoadOfBytes(m', be, Write(W32, a, ReadReg(regs, r)));
  }

  // ----- STM -----

  predicate IsStm(ins: word) {
    LBit(ins) == 0
  }

  predicate IsLdm(ins: word) {
    LBit(ins) == 1
  }

  /** The address of the word of register r: 4 bytes on for each lower-numbered listed register. */
  function WordAddress(s: State, ins: word, r: nat): word
    requires |s.regs| == SLOTS
  {
    Slot(RegisterList(ins), BlockStart(s, ins), r)
  }

  lemma StmLayoutAndFrame(s: State, ins: word)
    requires s.Valid() && IsStm(ins) && Passes(s, ins) && BlockInBounds(s, ins)
    ensures var t := Execute(s, ins);
            && t.regs == s.regs && t.mode == s.mode && t.be == s.be && |t.mem| == |s.mem|
            && (forall r: nat {:trigger WordAddress(s, ins, r)} :: r < 16 && Bit(RegisterList(ins), r) == 1 ==>
                  && InBounds(|t.mem|, WordAddress(s, ins, r), 4)
                  && Load(t.mem, t.be, W32, WordAddress(s, ins, r)) == ReadReg(s.regs, r))
            && (forall x :: 0 <= x < |s.mem| && !Covers(BlockStart(s, ins), 4 * Count(RegisterList(ins)), x) ==>
                  t.mem[x] == s.mem[x])
  {
    var list, start := RegisterList(ins), BlockStart(s, ins);
    forall r: nat | r < 16 && Bit(list, r) == 1
      ensures InBounds(|s.mem|, WordAddress(s, ins, r), 4)
      ensures Load(Execute(s, ins).mem, s.be, W32, WordAddress(s, ins, r)) == ReadReg(s.regs, r)
    {
      StoredRegister(s.mem, s.be, s.regs, list, start, r);
    }
    forall x | 0 <= x < |s.mem| && !Covers(start, 4 * Count(list), x)
      ensures Execute(s, ins).mem[x] == s.mem[x]
    {
      OtherBytesKept(s.mem, s.be, s.regs, list, start, 16, x);
    }
  }

  // ----- LDM -----

  /** What ends up in register r. */
  function LoadedValue(regs: seq<word>, m: seq<byte>, be: bool, list: half, start: word, r: nat): word
    requires |regs| == SLOTS && InBounds(|m|, start, 4 * Count(list)) && r < SLOTS
  {
    if r < 15 && Bit(list, r) == 1 then LdmWord(m, be, list, start, r)
    else if r == 15 && Bit(list, 15) == 1 then 0
    else regs[r]
  }

  lemma LoadedOne(regs: seq<word>, m: seq<byte>, be: bool, list: half, start: word, i: nat, r: nat, value: word)
    requires |regs| == SLOTS && InBounds(|m|, start, 4 * Count(list)) && 0 < i <= 16 && r < SLOTS
    requires value == LoadedValue(regs, m, be, list, start, r)
    requires LdmRegs(regs, m, be, list, start, i - 1)[r] == if r < i - 1 then value else regs[r]
    ensures LdmRegs(regs, m, be, list, start, i)[r] == if r < i then value else regs[r]
  {
  }

  lemma {:induction false} LoadedBelow(regs: seq<word>, m: seq<byte>, be: bool, list: half, start: word,
                                       i: nat, r: nat, value: word)
    requires |regs| == SLOTS && InBounds(|m|, start, 4 * Count(list)) && i <= 16 && r < SLOTS
    requires value == LoadedValue(regs, m, be, list, start, r)
    ensures LdmRegs(regs, m, be, list, start, i)[r] == if r < i then value else regs[r]
    decreases i
  {
    if i > 0 {
      LoadedBelow(regs, m, be, list, start, i - 1, r, value);
      LoadedOne(regs, m, be, list, start, i, r, value);
    }
  }

  lemma LoadedRegister(regs: seq<word>, m: seq<byte>, be: bool, list: half, start: word, r: nat)
    requires |regs| == SLOTS && InBounds(|m|, start, 4 * Count(list)) && r < SLOTS
    ensures LdmRegs(regs, m, be, list, start, 16)[r] == LoadedValue(regs, m, be, list, start, r)
  {
    LoadedBelow(regs, m, be, list, start, 16, r, LoadedValue(regs, m, be, list, start, r));
  }

  lemma LdmEffect(s: State, ins: word)
    requires s.Valid() && IsLdm(ins) && Passes(s, ins) && BlockInBounds(s, ins)
    ensures var t := Execute(s, ins);
            && t.mem == s.mem && t.mode == s.mode && t.be == s.be && |t.regs| == SLOTS
            && (forall r: nat {:trigger WordAddress(s, ins, r)} :: r < 15 && Bit(RegisterList(ins), r) == 1 ==>
                  && InBounds(|s.mem|, WordAddress(s, ins, r), 4)
                  && t.regs[r] == Load(s.mem, s.be, W32, WordAddress(s, ins, r)))
            && (forall r :: 0 <= r < SLOTS && (r > 15 || Bit(RegisterList(ins), r) == 0) ==> t.regs[r] == s.regs[r])
            && (Bit(RegisterList(ins), 15) == 1 ==> t.regs[PC] == 0)
  {
    var list, start, t := RegisterList(ins), BlockStart(s, ins), Execute(s, ins);
    forall r: nat | r < 15 && Bit(list, r) == 1
      ensures InBounds(|s.mem|, WordAddress(s, ins, r), 4)
      ensures t.regs[r] == Load(s.mem, s.be, W32, WordAddress(s, ins, r))
    {
      SlotInBlock(|s.mem|, list, start, r);
      LoadedRegister(s.regs, s.mem, s.be, list, start, r);
    }
    forall r | 0 <= r < SLOTS && (r > 15 || Bit(list, r) == 0)
      ensures t.regs[r] == s.regs[r]
    {
      LoadedRegister(s.regs, s.mem, s.be, list, start, r);
    }
    LoadedRegister(s.regs, s.mem, s.be, list, start, 15);
  }

  // ----- Unaligned blocks -----

  lemma AlignedSlot(list: half, start: word, r: nat)
    ensures Aligned(Slot(list, start, r)) == Slot(list, Aligned(start), r)
    ensures Slot(list, start, r) % 4 == start % 4
  {
    AlignedStep(start, Rank(list, r));
  }

  lemma AlignedStep(a: word, j: nat)
    ensures Aligned(Addr(a, 4 * j)) == Addr(Aligned(a), 4 * j)
    ensures Addr(a, 4 * j) % 4 == a % 4
  {
    var q, r := a / 4, a % 4;
    assert a == 4 * q + r && Aligned(a) == 4 * q;
    WrappedFours(q + j, r);
    WrappedFours(q + j, 0);
  }

  /** Wrapping around 2^32 keeps the two low bits. */
  lemma WrappedFours(p: nat, r: nat)
    requires r < 4
    ensures Wrap(4 * p + r) == 4 * (p % 0x4000_0000) + r
    ensures Aligned(Wrap(4 * p + r)) == Wrap(4 * p) && Wrap(4 * p + r) % 4 == r
  {
    var k, q := p / 0x4000_0000, p % 0x4000_0000;
    assert 4 * p == 0x1_0000_0000 * k + 4 * q;
    DivUnique(4 * p + r, 0x1_0000_0000, k, 4 * q + r);
    DivUnique(4 * p, 0x1_0000_0000, k, 4 * q);
    DivUnique(4 * q + r, 4, q, r);
  }

  lemma SameBytesSameWord(m: seq<byte>, be: bool, a: word)
    requires InBounds(|m|, a, 4)
    ensures InBounds(|m|, Aligned(a), 4)
    ensures Load(m, be, W32, a) == Load(m, be, W32, Aligned(a))
       <==> forall k: nat :: k < 4 ==> HeldAt(m, a, k, m[Addr(Aligned(a), k)])
  {
    AlignedInBounds(|m|, a);
    LoadIsWordOf(m, be, a);
    LoadIsWordOf(m, be, Aligned(a));
    WordsOfEqual(be, BytesAt(m, a), BytesAt(m, Aligned(a)));
    assert forall k: nat :: k < 4 ==>
        (BytesAt(m, a)[k] == BytesAt(m, Aligned(a))[k] <==> HeldAt(m, a, k, m[Addr(Aligned(a), k)]));
  }

  /** The manual's block transfers ignore the two low address bits; the code's do not.  LDM gives a listed
      register the word the manual wants exactly when the four bytes at its slot are those at the aligned slot. */
  lemma WhereUnalignedLdmIsRight(s: State, ldm: word, r: nat)
    requires s.Valid() && IsLdm(ldm) && Passes(s, ldm) && BlockInBounds(s, ldm)
    requires r < 15 && Bit(RegisterList(ldm), r) == 1
    ensures var a := WordAddress(s, ldm, r);
            && InBounds(|s.mem|, Aligned(a), 4)
            && (Execute(s, ldm).regs[r] == Load(s.mem, s.be, W32, Aligned(a)) <==>
                forall k: nat :: k < 4 ==> HeldAt(s.mem, a, k, s.mem[Addr(Aligned(a), k)]))
  {
    LdmEffect(s, ldm);
    assert InBounds(|s.mem|, WordAddress(s, ldm, r), 4);
    SameBytesSameWord(s.mem, s.be, WordAddress(s, ldm, r));
  }

  /** The bytes of the listed registers below `i`, one word after another. */
  function ListBytes(be: bool, regs: seq<word>, list: half, i: nat): (b: seq<byte>)
    requires |regs| == SLOTS && i <= 16
    ensures |b| == 4 * Rank(list, i)
    decreases i
  {
    if i == 0 then []
    else ListBytes(be, regs, list, i - 1) + if Bit(list, i - 1) == 1 then SplitWord(be, ReadReg(regs, i - 1)) else []
  }

  /** STM's word stores come to one block of bytes. */
  lemma {:induction false} StmIsOneBlock(m: seq<byte>, be: bool, regs: seq<word>, list: half, start: word, i: nat)
    requires |regs| == SLOTS && i <= 16
    ensures StmMem(m, be, regs, list, start, i) == Image(m, start, ListBytes(be, regs, list, i))
    decreases i
  {
    if i == 0 {
      assert Image(m, start, []) == m;
    } else {
      StmIsOneBlock(m, be, regs, list, start, i - 1);
      var b := ListBytes(be, regs, list, i - 1);
      if Bit(list, i - 1) == 1 {
        ImageAppend(m, be, start, b, ReadReg(regs, i - 1));
        assert ListBytes(be, regs, list, i) == b + SplitWord(be, ReadReg(regs, i - 1));
      } else {
        assert ListBytes(be, regs, list, i) == b;
      }
    }
  }

  lemma WhereBlocksAgree(m: seq<byte>, be: bool, regs: seq<word>, list: half, start: word, i: nat)
    requires |regs| == SLOTS && i <= 16 && InBounds(|m|, start, 4 * Rank(list, i))
    ensures StmMem(m, be, regs, list, start, i) == StmMem(m, be, regs, list, Aligned(start), i)
       <==> LowBitsHidden(m, start, ListBytes(be, regs, list, i))
  {
    StmIsOneBlock(m, be, regs, list, start, i);
    StmIsOneBlock(m, be, regs, list, Aligned(start), i);
    WhereWordsAgree(m, start, ListBytes(be, regs, list, i), Rank(list, i));
  }

  /** STM leaves the memory of a transfer to the aligned block exactly when the low address bits do not show
      on the bytes it stores. */
  lemma WhereUnalignedStmIsRight(s: State, stm: word)
    requires s.Valid() && IsStm(stm) && Passes(s, stm) && BlockInBounds(s, stm)
    ensures var list, start := RegisterList(stm), BlockStart(s, stm);
            Execute(s, stm).mem == StmMem(s.mem, s.be, s.regs, list, Aligned(start), 16) <==>
            LowBitsHidden(s.mem, start, ListBytes(s.be, s.regs, list, 16))
  {
    WhereBlocksAgree(s.mem, s.be, s.regs, RegisterList(stm), BlockStart(s, stm), 16);
  }

  // ----- LDM of R15 -----

  /** The manual's LDM puts the word of a listed R15 there with bit 0 cleared, and bit 0 into the T bit (bit 5
      of the CPSR).  The code loads 0 and leaves T, so R15 is right exactly for the words 0 and 1, and R15 and T
      both are exactly when the word is T. */
  lemma LdmOfPc(s: State, ins: word)
    requires s.Valid() && IsLdm(ins) && Passes(s, ins) && BlockInBounds(s, ins)
    requires Bit(RegisterList(ins), 15) == 1
    ensures InBounds(|s.mem|, Aligned(WordAddress(s, ins, 15)), 4)
    ensures var t, w := Execute(s, ins), Load(s.mem, s.be, W32, Aligned(WordAddress(s, ins, 15)));
            && t.regs[PC] == 0 && t.regs[CPSR] == s.regs[CPSR]
            && (t.regs[PC] == And(w, 0xFFFF_FFFE) <==> w <= 1)
            && (t.regs[PC] == And(w, 0xFFFF_FFFE) && Flag(t.regs, T) == w % 2 <==> w == Flag(s.regs, T))
  {
    LdmEffect(s, ins);
    SlotInBlock(|s.mem|, RegisterList(ins), BlockStart(s, ins), 15);
    AlignedInBounds(|s.mem|, WordAddress(s, ins, 15));
    ClearLowBit(Load(s.mem, s.be, W32, Aligned(WordAddress(s, ins, 15))));
  }

  // ----- Round trip -----

  /** Two block instructions over the same registers, in the same mode, from the same base value. */
  predicate SameBlock(s: State, stm: word, s': State, ldm: word)
    requires |s.regs| == SLOTS && |s'.regs| == SLOTS
  {
    && RegisterList(stm) == RegisterList(ldm)
    && PBit(stm) == PBit(ldm) && UBit(stm) == UBit(ldm)
    && ReadReg(s.regs, Rn(stm)) == ReadReg(s'.regs, Rn(ldm))
  }

  /** STM, any change whatever to the registers and the mode (flags included), then LDM over the same
      block: every listed register but R15 is as it was at the STM, even the base register. */
  lemma StmThenLdm(s: State, stm: word, clobbered: State, ldm: word)
    requires s.Valid() && clobbered.Valid()
    requires IsStm(stm) && Passes(s, stm) && BlockInBounds(s, stm)
    requires clobbered.mem == Execute(s, stm).mem && clobbered.be == s.be
    requires IsLdm(ldm) && Passes(clobbered, ldm) && SameBlock(s, stm, clobbered, ldm)
    ensures BlockInBounds(clobbered, ldm)
    ensures forall r: nat :: r < 15 && Bit(RegisterList(stm), r) == 1 ==>
              Execute(clobbered, ldm).regs[r] == s.regs[r]
  {
    StmLayoutAndFrame(s, stm);
    assert BlockStart(clobbered, ldm) == BlockStart(s, stm);
    LdmEffect(clobbered, ldm);
    forall r: nat | r < 15 && Bit(RegisterList(stm), r) == 1
      ensures Execute(clobbered, ldm).regs[r] == s.regs[r]
    {
      assert WordAddress(clobbered, ldm, r) == WordAddress(s, stm, r);
    }
  }

  // ----- Complementary modes -----

  /** Decrement-before from b is increment-after from b-4n, and increment-before from b is
      decrement-after from b+4n: same first and last word.  Each pair's new bases undo each other. */
  lemma ComplementaryModes(b: word, n: nat)
    ensures var low, high := NewBase(0, b, n), NewBase(1, b, n);
            && StartAddress(1, 0, b, n) == StartAddress(0, 1, low, n)
            && EndAddress(1, 0, b, n) == EndAddress(0, 1, low, n)
            && StartAddress(1, 1, b, n) == StartAddress(0, 0, high, n)
            && EndAddress(1, 1, b, n) == EndAddress(0, 0, high, n)
            && NewBase(1, low, n) == b && NewBase(0, high, n) == b
  {
    AddrAdds(b, -4 * n, 4 * n - 4);
    AddrAdds(b, -4 * n, 4 * n);
    AddrAdds(b, 4 * n, 4 - 4 * n);
    AddrAdds(b, 4 * n, -4 * n);
  }

  // ----- Write-back -----

  lemma NewBaseMoves(u: nat, b: word, n: nat)
    requires n <= 16
    ensures NewBase(u, b, n) == b <==> n == 0
  {
    OffsetOfAddr(b, 4 * n);
    AddrAdds(b, -4 * n, 4 * n);
    OffsetOfAddr(Addr(b, -4 * n), 4 * n);
  }

  /** Rn after the instruction, by section A5.4. */
  function ArchitecturalBase(s: State, ins: word): word
    requires |s.regs| == SLOTS
  {
    var b := s.regs[Rn(ins)];
    if ShouldPass(s, ins) && WBit(ins) == 1 then NewBase(UBit(ins), b, Count(RegisterList(ins))) else b
  }

  /** Section A5.4 has W=1 leave the new base in Rn.  The code keeps it in a local, so (base not R15 and
      not itself loaded) Rn is right exactly when W is clear, the table fails the condition or the list is empty. */
  lemma WhereWriteBackIsRight(s: State, ins: word)
    requires s.Valid() && BlockInBounds(s, ins) && Rn(ins) != PC
    requires IsLdm(ins) ==> Bit(RegisterList(ins), Rn(ins)) == 0
    ensures Execute(s, ins).regs[Rn(ins)] == ArchitecturalBase(s, ins)
       <==> WBit(ins) == 0 || !ShouldPass(s, ins) || RegisterList(ins) == 0
  {
    var list := RegisterList(ins);
    NewBaseMoves(UBit(ins), s.regs[Rn(ins)], Count(list));
    if Passes(s, ins) && IsLdm(ins) {
      LdmEffect(s, ins);
    }
    assert list < Pow2(16) by { FieldSizes(); }
    RankIsPopcount(list, 16);
    PopcountZero(list);
  }

  lemma {:induction false} PopcountZero(x: nat)
    ensures Popcount(x) == 0 <==> x == 0
  {
    if x > 0 {
      PopcountZero(x / 2);
    }
  }
}
