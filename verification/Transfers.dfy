/** What the machine does with every load and store word: the address from Rn, the bits P and U and the offset,
    and the word or byte moved there, in arithmetic on the registers and fields the word names. */
module Transfers {
  import opened Bits
  import opened Util
  import opened Memory
  import opened Registers
  import opened ArmCore
  import opened Conditions
  import opened Fields
  import LSM = LoadStoreMultiple
  import LS = LoadStore
  import BT = BlockTransfer
  import MemoryMap
  import Branch
  import M = Machine

  /** R15 is read 4 further on with bit 1 cleared, every other register as it is. */
  lemma RegisterRead(regs: seq<word>, r: nat)
    requires |regs| == SLOTS && r < 16
    ensures r < 15 ==> ReadReg(regs, r) == regs[r]
    ensures r == 15 ==> ReadReg(regs, r) as int == Wrap(regs[15] as int + 4) as int - if regs[15] % 4 < 2 then 0 else 2
  {
    Branch.PcReadIs(regs[PC]);
  }

  // ----- LDM and STM -----

  /** The listed registers with a number below r. */
  function ListedBelow(list: half, r: nat): set<nat> {
    set j: nat | j < r && Bit(list, j) == 1
  }

  lemma {:induction false} RankCounts(list: half, r: nat)
    ensures |ListedBelow(list, r)| == LSM.Rank(list, r)
    decreases r
  {
    if r == 0 {
      assert ListedBelow(list, 0) == {};
    } else {
      RankCounts(list, r - 1);
      if Bit(list, r - 1) == 1 {
        assert ListedBelow(list, r) == ListedBelow(list, r - 1) + {r - 1};
      } else {
        assert ListedBelow(list, r) == ListedBelow(list, r - 1);
      }
    }
  }

  /** With k registers listed below it and n in all, the word of a register lies at Rn + 4k + 4P going up and at
      Rn - 4n + 4k + 4(1 - P) going down. */
  function WordAt(s: State, ins: word, r: nat): word
    requires |s.regs| == SLOTS
  {
    var base: int, list := ReadReg(s.regs, Rn(ins)), RegisterList(ins);
    var n, k := |ListedBelow(list, 16)|, |ListedBelow(list, r)|;
    if UBit(ins) == 1 then Wrap(base + 4 * k + 4 * PBit(ins))
    else Wrap(base - 4 * n + 4 * k + 4 * (1 - PBit(ins)))
  }

  lemma WordIsAtSlot(s: State, ins: word, r: nat)
    requires |s.regs| == SLOTS
    ensures BT.WordAddress(s, ins, r) == WordAt(s, ins, r)
  {
    var list := RegisterList(ins);
    RankCounts(list, r);
    RankCounts(list, 16);
    SlotFromBase(PBit(ins), UBit(ins), ReadReg(s.regs, Rn(ins)), LSM.Rank(list, 16), LSM.Rank(list, r));
  }

  lemma SlotFromBase(p: nat, u: nat, base: word, n: nat, k: nat)
    requires p <= 1 && u <= 1
    ensures Addr(LSM.StartAddress(p, u, base, n), 4 * k)
         == if u == 1 then Wrap(base as int + 4 * k + 4 * p) else Wrap(base as int - 4 * n + 4 * k + 4 * (1 - p))
  {
    var start: int := if u == 1 then 4 * p else -4 * n + 4 * (1 - p);
    assert LSM.StartAddress(p, u, base, n) == Addr(base, start);
    AddrAdds(base, start, 4 * k);
  }

  /** STM whose condition passes: every listed register is stored at its word, no register changes, and no byte
      outside the 4n from the first word on does. */
  lemma StmEffect(s: State, stm: word)
    requires M.Executable(s, stm) && Class(stm) == 4 && LBit(stm) == 0 && Passes(s, stm)
    ensures M.Dispatch(s, stm).Returned? && M.Dispatch(s, stm).value.code == 0
    ensures var t := M.Dispatch(s, stm).value.state;
            && t == s.(mem := t.mem) && |t.mem| == |s.mem|
            && (forall r: nat {:trigger WordAt(s, stm, r)} :: r < 16 && Bit(RegisterList(stm), r) == 1 ==>
                  && InBounds(|s.mem|, WordAt(s, stm, r), 4)
                  && Load(t.mem, s.be, W32, WordAt(s, stm, r)) == ReadReg(s.regs, r))
            && (forall x :: 0 <= x < |s.mem| ==>
                  !Covers(WordAt(s, stm, 0), 4 * |ListedBelow(RegisterList(stm), 16)|, x) ==>
                    t.mem[x] == s.mem[x])
  {
    BT.StmLayoutAndFrame(s, stm);
    forall r: nat | r < 16
      ensures BT.WordAddress(s, stm, r) == WordAt(s, stm, r)
    {
      WordIsAtSlot(s, stm, r);
    }
    RankCounts(RegisterList(stm), 16);
    FirstWord(s, stm);
  }

  lemma FirstWord(s: State, ins: word)
    requires |s.regs| == SLOTS
    ensures BT.WordAddress(s, ins, 0) == LSM.BlockStart(s, ins)
  {
  }

  /** LDM whose condition passes: every listed register below R15 gets the word at its address, R15 gets 0, and
      nothing else changes. */
  lemma LdmEffect(s: State, ldm: word)
    requires M.Executable(s, ldm) && Class(ldm) == 4 && LBit(ldm) == 1 && Passes(s, ldm)
    ensures M.Dispatch(s, ldm).Returned? && M.Dispatch(s, ldm).value.code == 0
    ensures var t := M.Dispatch(s, ldm).value.state;
            && t == s.(regs := t.regs) && |t.regs| == SLOTS
            && (forall r: nat {:trigger WordAt(s, ldm, r)} :: r < 15 && Bit(RegisterList(ldm), r) == 1 ==>
                  && InBounds(|s.mem|, WordAt(s, ldm, r), 4)
                  && t.regs[r] == Load(s.mem, s.be, W32, WordAt(s, ldm, r)))
            && (forall r :: 0 <= r < SLOTS && (r > 15 || Bit(RegisterList(ldm), r) == 0) ==> t.regs[r] == s.regs[r])
            && (Bit(RegisterList(ldm), 15) == 1 ==> t.regs[15] == 0)
  {
    BT.LdmEffect(s, ldm);
    forall r: nat | r < 16
      ensures BT.WordAddress(s, ldm, r) == WordAt(s, ldm, r)
    {
      WordIsAtSlot(s, ldm, r);
    }
  }

  // ----- LDR, LDRB, STR and STRB -----

  /** Going up or down from the base by an offset before the access, or not at all (P clear). */
  function Accessed(s: State, ins: word, offset: int): word
    requires |s.regs| == SLOTS
  {
    var base: int := ReadReg(s.regs, Rn(ins));
    if PBit(ins) == 0 then Wrap(base)
    else if UBit(ins) == 1 then Wrap(base + offset)
    else Wrap(base - offset)
  }

  /** The instruction moves a word, or with B a byte, between Rd and memory at `a`, and changes nothing else. */
  ghost predicate Moves(s: State, o: Outcome<M.Done>, ins: word, a: word)
    requires s.Valid()
  {
    && a < |s.mem| && (BBit(ins) == 0 ==> InBounds(|s.mem|, a, 4))
    && o == Returned(M.Done(
               if LBit(ins) == 1 then
                 s.(regs := s.regs[Rd(ins) := if BBit(ins) == 1 then s.mem[a] else Load(s.mem, s.be, W32, a)])
               else if BBit(ins) == 1 then s.(mem := s.mem[a := ReadReg(s.regs, Rd(ins)) % 0x100])
               else s.(mem := Store(s.mem, s.be, W32, a, ReadReg(s.regs, Rd(ins)))), 0))
  }

  lemma TransferMoves(s: State, ins: word, a: word)
    requires s.Valid() && LS.Accessible(s, ins) && a == LS.EffectiveAddress(s.regs, ins)
    ensures Moves(s, Returned(M.Done(LS.Transfer(s, ins), 0)), ins, a)
  {
    var w := LS.AccessWidth(ins);
    BlockAddresses(|s.mem|, a, w.Bytes());
    if w == W8 {
      MemoryMap.LoadByBytes(s.mem, s.be, W8, a);
      ByteStore(s.mem, s.be, a, ReadReg(s.regs, Rd(ins)) % 0x100);
    }
  }

  lemma MovesAtAddress(s: State, ins: word, a: word)
    requires M.Executable(s, ins) && (Class(ins) == 2 || Class(ins) == 3) && a == LS.EffectiveAddress(s.regs, ins)
    ensures Moves(s, M.Dispatch(s, ins), ins, a)
  {
    TransferMoves(s, ins, a);
    assert M.Dispatch(s, ins) == Returned(M.Done(LS.Transfer(s, ins), 0));
  }

  lemma ByteStore(m: seq<byte>, be: bool, a: word, v: byte)
    requires a < |m|
    ensures Store(m, be, W8, a, v) == m[a := v]
  {
    StoreIs(m, m[a := v], be, W8, a, v);
  }

  lemma AddressFrom(s: State, ins: word)
    requires |s.regs| == SLOTS && LS.Defined(ins)
    ensures LS.EffectiveAddress(s.regs, ins) == Accessed(s, ins, LS.OffsetOf(s.regs, ins))
  {
  }

  /** Immediate offset, pre-indexed and post-indexed: the offset is the 12 low bits. */
  lemma ImmediateForms(s: State, ins: word)
    requires M.Executable(s, ins) && Class(ins) == 2
    ensures Moves(s, M.Dispatch(s, ins), ins, Accessed(s, ins, Immediate12(ins)))
  {
    AddressFrom(s, ins);
    MovesAtAddress(s, ins, LS.EffectiveAddress(s.regs, ins));
  }

  /** Register offset, pre-indexed and post-indexed: the offset is Rm. */
  lemma RegisterForms(s: State, ins: word)
    requires M.Executable(s, ins) && Class(ins) == 3 && GetBits(ins, 11, 4) == 0
    ensures Moves(s, M.Dispatch(s, ins), ins, Accessed(s, ins, ReadReg(s.regs, Rm(ins))))
  {
    AddressFrom(s, ins);
    MovesAtAddress(s, ins, LS.EffectiveAddress(s.regs, ins));
  }

  /** Scaled register offset, pre-indexed and post-indexed: Rm * 2^a modulo 2^32, the quotient of Rm or of the
      signed Rm by 2^a (2^32 for a = 0), Rm rotated right by a places, or C and Rm shifted right by one. */
  lemma ScaledForms(s: State, ins: word)
    requires M.Executable(s, ins) && Class(ins) == 3 && GetBits(ins, 11, 4) != 0
    ensures var rm, a, o := ReadReg(s.regs, Rm(ins)), ShiftAmount(ins), M.Dispatch(s, ins);
            var places := if a == 0 then 32 else a;
            && (ShiftCode(ins) == 0 ==> Moves(s, o, ins, Accessed(s, ins, Wrap(rm * Pow2(a)))))
            && (ShiftCode(ins) == 1 ==> Moves(s, o, ins, Accessed(s, ins, rm / Pow2(places))))
            && (ShiftCode(ins) == 2 ==> Moves(s, o, ins, Accessed(s, ins, Wrap(Signed(rm) / Pow2(places)))))
            && (ShiftCode(ins) == 3 ==>
                  Moves(s, o, ins, Accessed(s, ins, if a == 0 then (Flag(s.regs, 29) * 0x1_0000_0000 + rm) / 2
                                                    else rm / Pow2(a) + rm % Pow2(a) * Pow2(32 - a))))
  {
    OffsetIs(s, ins);
    AddressFrom(s, ins);
    MovesAtAddress(s, ins, LS.EffectiveAddress(s.regs, ins));
  }

  /** A post-indexed form accesses exactly Rn, whatever its offset. */
  lemma PostIndexedForms(s: State, ins: word)
    requires M.Executable(s, ins) && (Class(ins) == 2 || Class(ins) == 3) && PBit(ins) == 0
    ensures Moves(s, M.Dispatch(s, ins), ins, ReadReg(s.regs, Rn(ins)))
  {
    MovesAtAddress(s, ins, LS.EffectiveAddress(s.regs, ins));
  }

  /** The offset of any form. */
  function Offset(s: State, ins: word): int
    requires |s.regs| == SLOTS
  {
    var rm, a, kind := ReadReg(s.regs, Rm(ins)), ShiftAmount(ins), ShiftCode(ins);
    var places := if a == 0 then 32 else a;
    if Class(ins) == 2 then Immediate12(ins)
    else if GetBits(ins, 11, 4) == 0 then rm
    else if kind == 0 then Wrap(rm * Pow2(a))
    else if kind == 1 then rm / Pow2(places)
    else if kind == 2 then Wrap(Signed(rm) / Pow2(places))
    else if a == 0 then (Flag(s.regs, 29) * 0x1_0000_0000 + rm) / 2
    else rm / Pow2(a) + rm % Pow2(a) * Pow2(32 - a)
  }

  lemma OffsetIs(s: State, ins: word)
    requires |s.regs| == SLOTS && LS.Defined(ins)
    ensures LS.OffsetOf(s.regs, ins) == Offset(s, ins)
  {
    LS.ScaledIndexMeaning(ReadReg(s.regs, Rm(ins)), ShiftAmount(ins), Flag(s.regs, 29));
  }

  /** The base that the pre-indexed and post-indexed forms leave in the local `rn`: Rn with the same offset added
      or subtracted. */
  lemma IndexedBases(s: State, ins: word)
    requires |s.regs| == SLOTS && LS.Defined(ins)
    ensures var base: int := ReadReg(s.regs, Rn(ins));
            LS.Indexed(s.regs, ins) == Wrap(if UBit(ins) == 1 then base + Offset(s, ins) else base - Offset(s, ins))
  {
    OffsetIs(s, ins);
  }

  // ----- Which words run -----

  /** The code sets an address for every word of class 2 and for those of class 3 with bit 4 clear, but for P clear
      with W set; the bytes at it have to exist, and so does the block of an LDM or STM that passes. */
  lemma WhichTransfersRun(s: State, ins: word)
    requires s.Valid() && 2 <= Class(ins) <= 4
    ensures Class(ins) != 4 ==>
              (M.Executable(s, ins) <==>
               && (Class(ins) == 3 ==> GetBit(ins, 4) == 0) && (PBit(ins) == 1 || WBit(ins) == 0)
               && InBounds(|s.mem|, LS.EffectiveAddress(s.regs, ins), if BBit(ins) == 1 then 1 else 4))
    ensures Class(ins) == 4 ==>
              (M.Executable(s, ins) <==>
               Passes(s, ins) ==> InBounds(|s.mem|, WordAt(s, ins, 0), 4 * |ListedBelow(RegisterList(ins), 16)|))
  {
    WordIsAtSlot(s, ins, 0);
    FirstWord(s, ins);
    RankCounts(RegisterList(ins), 16);
  }
}
