/** What LDR, LDRB, STR and STRB achieve, in all nine addressing forms. */
module SingleTransfer {
  import opened Bits
  import opened Util
  import opened Memory
  import opened MemoryMap
  import opened Alignment
  import opened Registers
  import opened ArmCore
  import opened Conditions
  import opened Fields
  import opened LoadStoreMultiple
  import opened LoadStore
  import BlockTransfer

  predicate IsStore(ins: word) {
    LBit(ins) == 0
  }

  /** A store leaves every register alone and changes only the bytes at its address; a load changes only Rd. */
  lemma TransferFrame(s: State, ins: word)
    requires s.Valid() && Accessible(s, ins)
    ensures var t := Transfer(s, ins);
            && t.mode == s.mode && t.be == s.be && |t.mem| == |s.mem| && |t.regs| == SLOTS
            && (forall r :: 0 <= r < SLOTS && (IsStore(ins) || r != Rd(ins)) ==> t.regs[r] == s.regs[r])
            && (forall x :: 0 <= x < |s.mem| ==>
                  !IsStore(ins) || !Covers(EffectiveAddress(s.regs, ins), AccessWidth(ins).Bytes(), x) ==>
                    t.mem[x] == s.mem[x])
  {
  }

  /** The machine after a store and any change whatever to the registers and the mode. */
  predicate Follows(s: State, str: word, later: State)
    requires Accessible(s, str)
  {
    later.mem == Transfer(s, str).mem && later.be == s.be
  }

  /** A store, then a load of the same width whose form, registers and offsets may all differ but whose
      address is the same: Rd holds the stored register, or its low byte with zeros above. */
  lemma StoreThenLoad(s: State, str: word, later: State, ldr: word)
    requires s.Valid() && later.Valid() && Accessible(s, str) && IsStore(str) && Follows(s, str, later)
    requires Defined(ldr) && !IsStore(ldr) && BBit(ldr) == BBit(str)
    requires EffectiveAddress(later.regs, ldr) == EffectiveAddress(s.regs, str)
    ensures Accessible(later, ldr)
    ensures Transfer(later, ldr).regs[Rd(ldr)] ==
            if BBit(str) == 1 then ReadReg(s.regs, Rd(str)) % 0x100 else ReadReg(s.regs, Rd(str))
  {
    LoadAfterStore(s.mem, s.be, Write(AccessWidth(str), EffectiveAddress(s.regs, str), StoredValue(s.regs, str)));
  }

  /** LDRB `k` bytes into a stored word reads its byte k, from the top in big-endian order. */
  lemma ByteOfStoredWord(s: State, str: word, later: State, ldrb: word, k: nat)
    requires s.Valid() && later.Valid() && Accessible(s, str) && Follows(s, str, later)
    requires IsStore(str) && BBit(str) == 0
    requires Defined(ldrb) && !IsStore(ldrb) && BBit(ldrb) == 1
    requires k < 4 && EffectiveAddress(later.regs, ldrb) == Addr(EffectiveAddress(s.regs, str), k)
    ensures Accessible(later, ldrb)
    ensures Transfer(later, ldrb).regs[Rd(ldrb)] == Byte(ReadReg(s.regs, Rd(str)), if s.be then 3 - k else k)
  {
    ByteInsideWord(s.mem, s.be, EffectiveAddress(s.regs, str), ReadReg(s.regs, Rd(str)), k);
  }

  /** A block store seen by single loads: LDR at the slot of a listed register reads that register. */
  lemma LoadFromBlock(s: State, stm: word, later: State, ldr: word, r: nat)
    requires s.Valid() && later.Valid()
    requires LBit(stm) == 0 && Passes(s, stm) && BlockInBounds(s, stm)
    requires r < 16 && Bit(RegisterList(stm), r) == 1
    requires later.mem == Execute(s, stm).mem && later.be == s.be
    requires Defined(ldr) && !IsStore(ldr) && BBit(ldr) == 0
    requires EffectiveAddress(later.regs, ldr) == Slot(RegisterList(stm), BlockStart(s, stm), r)
    ensures Accessible(later, ldr)
    ensures Transfer(later, ldr).regs[Rd(ldr)] == ReadReg(s.regs, r)
  {
    BlockTransfer.StoredRegister(s.mem, s.be, s.regs, RegisterList(stm), BlockStart(s, stm), r);
  }

  // ----- Unaligned words -----

  lemma RotatedByByte(b3: byte, b2: byte, b1: byte, b0: byte)
    ensures Ror(Join4(b3, b2, b1, b0), 8) == Join4(b0, b3, b2, b1)
  {
    var v := Join4(b3, b2, b1, b0);
    SmallPowers();
    RorMeaning(v, 8);
    DivUnique(v, 0x100, b3 as int * 0x1_0000 + b2 as int * 0x100 + b1 as int, b0);
  }

  lemma RotatedByBytes(b3: byte, b2: byte, b1: byte, b0: byte)
    ensures Ror(Join4(b3, b2, b1, b0), 0) == Join4(b3, b2, b1, b0)
    ensures Ror(Join4(b3, b2, b1, b0), 8) == Join4(b0, b3, b2, b1)
    ensures Ror(Join4(b3, b2, b1, b0), 16) == Join4(b1, b0, b3, b2)
    ensures Ror(Join4(b3, b2, b1, b0), 24) == Join4(b2, b1, b0, b3)
  {
    var v := Join4(b3, b2, b1, b0);
    RotationByZero(v);
    RotatedByByte(b3, b2, b1, b0);
    RotationsCompose(v, 8, 8);
    RotatedByByte(b0, b3, b2, b1);
    RotationsCompose(v, 16, 8);
    RotatedByByte(b1, b0, b3, b2);
  }

  /** The manual's LDR reads the aligned word and rotates it right by 8 places for each byte the address is
      past it. */
  function ArchitecturalWord(m: seq<byte>, be: bool, a: word): word
    requires InBounds(|m|, a, 4)
  {
    AlignedInBounds(|m|, a);
    Ror(Load(m, be, W32, Aligned(a)), 8 * (a % 4))
  }

  /** Which byte of the aligned word the rotation by `r` bytes brings to place k. */
  function Place(be: bool, r: nat, k: nat): (p: nat)
    requires r < 4 && k < 4
    ensures p < 4
  {
    if be then (if k >= r then k - r else k + 4 - r) else (if k + r < 4 then k + r else k + r - 4)
  }

  function Permuted(be: bool, c: seq<byte>, r: nat): (d: seq<byte>)
    requires |c| == 4 && r < 4
    ensures |d| == 4 && forall k: nat :: k < 4 ==> d[k] == c[Place(be, r, k)]
  {
    [c[Place(be, r, 0)], c[Place(be, r, 1)], c[Place(be, r, 2)], c[Place(be, r, 3)]]
  }

  lemma RotatedPlaces(be: bool, c: seq<byte>, r: nat)
    requires |c| == 4 && r < 4
    ensures Ror(WordOf(be, c), 8 * r) == WordOf(be, Permuted(be, c, r))
  {
    if be {
      RotatedByBytes(c[0], c[1], c[2], c[3]);
    } else {
      RotatedByBytes(c[3], c[2], c[1], c[0]);
    }
    assert r == 0 || r == 1 || r == 2 || r == 3;
  }

  function RotatedByte(m: seq<byte>, be: bool, a: word, k: nat): byte
    requires InBounds(|m|, a, 4) && k < 4
  {
    AlignedInBounds(|m|, a);
    BytesAt(m, Aligned(a))[Place(be, a % 4, k)]
  }

  lemma LoadIsRotation(m: seq<byte>, be: bool, a: word)
    requires InBounds(|m|, a, 4)
    ensures Load(m, be, W32, a) == ArchitecturalWord(m, be, a)
       <==> forall k: nat :: k < 4 ==> BytesAt(m, a)[k] == RotatedByte(m, be, a, k)
  {
    AlignedInBounds(|m|, a);
    var c := BytesAt(m, Aligned(a));
    LoadIsWordOf(m, be, a);
    LoadIsWordOf(m, be, Aligned(a));
    RotatedPlaces(be, c, a % 4);
    WordsOfEqual(be, BytesAt(m, a), Permuted(be, c, a % 4));
  }

  /** LDR reads the four bytes at the address.  That is right exactly when each is the byte the rotation
      brings to its place. */
  lemma WhereUnalignedLoadIsRight(s: State, ldr: word)
    requires s.Valid() && Accessible(s, ldr) && !IsStore(ldr) && BBit(ldr) == 0 && Rd(ldr) != PC
    ensures var a := EffectiveAddress(s.regs, ldr);
            Transfer(s, ldr).regs[Rd(ldr)] == ArchitecturalWord(s.mem, s.be, a) <==>
            forall k: nat :: k < 4 ==> s.mem[Addr(a, k)] == RotatedByte(s.mem, s.be, a, k)
  {
    var a := EffectiveAddress(s.regs, ldr);
    LoadIsRotation(s.mem, s.be, a);
    LoadIsWordOf(s.mem, s.be, a);
  }

  /** The place of a word's least significant byte. */
  function LowPlace(be: bool): nat {
    if be then 3 else 0
  }

  lemma LowByteMoves(be: bool, d: seq<byte>, t: nat)
    requires |d| == 4 && t <= 1 && d[LowPlace(be)] % 2 == t
    ensures WordOf(be, d) % 2 == t
    ensures WordOf(be, d[LowPlace(be) := d[LowPlace(be)] as int - t]) == WordOf(be, d) as int - t
  {
  }

  lemma ParityOfWord(be: bool, d: seq<byte>)
    requires |d| == 4
    ensures WordOf(be, d) % 2 == d[LowPlace(be)] % 2
  {
  }

  lemma PcWord(be: bool, c: seq<byte>, d: seq<byte>, t: nat)
    requires |c| == |d| == 4 && t <= 1
    ensures (WordOf(be, c) == And(WordOf(be, d), 0xFFFF_FFFE) && WordOf(be, d) % 2 == t)
       <==> (d[LowPlace(be)] % 2 == t
             && forall k: nat :: k < 4 ==> c[k] as int == d[k] as int - if k == LowPlace(be) then t else 0)
  {
    ParityOfWord(be, d);
    ClearLowBit(WordOf(be, d));
    if d[LowPlace(be)] % 2 == t {
      LowByteMoves(be, d, t);
      WordsOfEqual(be, c, d[LowPlace(be) := d[LowPlace(be)] as int - t]);
    }
  }

  /** Loaded into R15, the manual's word loses bit 0, which goes to the T bit.  The code loads the bytes as they
      are and leaves T, so R15 and T are both right exactly when bit 0 of the rotated word is T, and each byte
      read is the one the rotation brings to its place, less T in the lowest. */
  lemma WhereLoadOfPcIsRight(s: State, ldr: word)
    requires s.Valid() && Accessible(s, ldr) && !IsStore(ldr) && BBit(ldr) == 0 && Rd(ldr) == PC
    ensures var a, low, thumb := EffectiveAddress(s.regs, ldr), LowPlace(s.be), Flag(s.regs, T);
            var t, w := Transfer(s, ldr), ArchitecturalWord(s.mem, s.be, a);
            && t.regs[CPSR] == s.regs[CPSR]
            && ((t.regs[PC] == And(w, 0xFFFF_FFFE) && Flag(t.regs, T) == w % 2) <==>
                (RotatedByte(s.mem, s.be, a, low) % 2 == thumb
                 && forall k: nat :: k < 4 ==>
                      s.mem[Addr(a, k)] as int
                      == RotatedByte(s.mem, s.be, a, k) as int - if k == low then thumb else 0))
  {
    PcBytes(s.mem, s.be, EffectiveAddress(s.regs, ldr), Flag(s.regs, T));
  }

  lemma PcBytes(m: seq<byte>, be: bool, a: word, t: nat)
    requires InBounds(|m|, a, 4) && t <= 1
    ensures forall k: nat :: k < 4 ==> Addr(a, k) < |m|
    ensures var w := ArchitecturalWord(m, be, a);
            (Load(m, be, W32, a) == And(w, 0xFFFF_FFFE) && t == w % 2) <==>
            (RotatedByte(m, be, a, LowPlace(be)) % 2 == t
             && forall k: nat :: k < 4 ==>
                  m[Addr(a, k)] as int == RotatedByte(m, be, a, k) as int - if k == LowPlace(be) then t else 0)
  {
    AlignedInBounds(|m|, a);
    LoadIsWordOf(m, be, a);
    RotatedWord(m, be, a);
    PcWord(be, BytesAt(m, a), Permuted(be, BytesAt(m, Aligned(a)), a % 4), t);
  }

  lemma RotatedWord(m: seq<byte>, be: bool, a: word)
    requires InBounds(|m|, a, 4)
    ensures InBounds(|m|, Aligned(a), 4)
    ensures var d := Permuted(be, BytesAt(m, Aligned(a)), a % 4);
            && ArchitecturalWord(m, be, a) == WordOf(be, d)
            && forall k: nat :: k < 4 ==> d[k] == RotatedByte(m, be, a, k)
  {
    AlignedInBounds(|m|, a);
    LoadIsWordOf(m, be, Aligned(a));
    RotatedPlaces(be, BytesAt(m, Aligned(a)), a % 4);
  }

  /** In little-endian order the bytes of the aligned word are in place already, so the condition is on each
      byte past it, which has to equal the one 4 below. */
  lemma LittleEndianPlaces(m: seq<byte>, a: word, k: nat)
    requires InBounds(|m|, a, 4) && k < 4
    ensures Addr(a, k) < |m|
    ensures a % 4 + k < 4 ==> RotatedByte(m, false, a, k) == m[Addr(a, k)]
    ensures a % 4 + k >= 4 ==> Addr(a, k - 4) < |m| && RotatedByte(m, false, a, k) == m[Addr(a, k - 4)]
  {
    AlignedInBounds(|m|, a);
    LoadIsWordOf(m, false, Aligned(a));
    AlignedAddr(a, k);
    AlignedAddr(a, k - 4);
    assert Addr(a, k) < |m|;
  }

  /** The manual's STR ignores the two low address bits.  The code's memory is the manual's exactly when those
      bits do not show on the four bytes stored. */
  lemma WhereUnalignedStoreIsRight(s: State, str: word)
    requires s.Valid() && Accessible(s, str) && IsStore(str) && BBit(str) == 0
    ensures var a, v := EffectiveAddress(s.regs, str), ReadReg(s.regs, Rd(str));
            Transfer(s, str).mem == Store(s.mem, s.be, W32, Aligned(a), v) <==>
            LowBitsHidden(s.mem, a, SplitWord(s.be, v))
  {
    var a, v := EffectiveAddress(s.regs, str), ReadReg(s.regs, Rd(str));
    StoreIsImage(s.mem, s.be, a, v);
    StoreIsImage(s.mem, s.be, Aligned(a), v);
    WhereImagesAgree(s.mem, a, SplitWord(s.be, v));
  }

  // ----- Addressing -----

  /** A register offset is the scaled form LSL #0; an offset register of 0 makes it access the base. */
  lemma RegisterFormIsUnshifted(regs: seq<word>, ins: word)
    requires |regs| == SLOTS && Defined(ins) && Class(ins) == 3 && GetBits(ins, 11, 4) == 0
    ensures OffsetOf(regs, ins) == ScaledIndex(LSL, ReadReg(regs, Rm(ins)), 0, Flag(regs, 29))
    ensures OffsetOf(regs, ins) == 0 ==> EffectiveAddress(regs, ins) == ReadReg(regs, Rn(ins))
  {
  }

  /** Adding and subtracting the same offset (U=1, then U=0) undo each other, with wrap-around. */
  lemma UpDownCancel(regs: seq<word>, up: word, regs': seq<word>, down: word)
    requires |regs| == |regs'| == SLOTS && Defined(up) && Defined(down)
    requires UBit(up) == 1 && UBit(down) == 0 && OffsetOf(regs, up) == OffsetOf(regs', down)
    requires ReadReg(regs', Rn(down)) == Indexed(regs, up)
    ensures Indexed(regs', down) == ReadReg(regs, Rn(up))
  {
    AddrAdds(ReadReg(regs, Rn(up)), OffsetOf(regs, up), -(OffsetOf(regs, up) as int));
  }

  /** The base register by section A5.2: pre-indexed (W=1) and post-indexed (P=0) forms update it. */
  function ArchitecturalBase(s: State, ins: word): word
    requires |s.regs| == SLOTS && Defined(ins)
  {
    if ShouldPass(s, ins) && (PBit(ins) == 0 || WBit(ins) == 1) then Indexed(s.regs, ins) else s.regs[Rn(ins)]
  }

  lemma OffsetMoves(base: word, offset: word)
    ensures Wrap(base as int + offset as int) == base <==> offset == 0
    ensures Wrap(base as int - offset as int) == base <==> offset == 0
  {
  }

  lemma IndexMoves(regs: seq<word>, ins: word)
    requires |regs| == SLOTS && Defined(ins) && Rn(ins) != PC
    ensures Indexed(regs, ins) == regs[Rn(ins)] <==> OffsetOf(regs, ins) == 0
  {
    OffsetMoves(regs[Rn(ins)], OffsetOf(regs, ins));
  }

  /** The code never stores the new base, so (Rn not R15, and not the register loaded) Rn is right
      exactly when the form has no write-back, the table fails the condition or the offset is 0. */
  lemma WhereWriteBackIsRight(s: State, ins: word)
    requires s.Valid() && Accessible(s, ins) && Rn(ins) != PC
    requires !IsStore(ins) ==> Rd(ins) != Rn(ins)
    ensures Transfer(s, ins).regs[Rn(ins)] == ArchitecturalBase(s, ins)
       <==> (PBit(ins) == 1 && WBit(ins) == 0) || !ShouldPass(s, ins) || OffsetOf(s.regs, ins) == 0
  {
    var base := s.regs[Rn(ins)];
    assert Transfer(s, ins).regs[Rn(ins)] == base;
    IndexMoves(s.regs, ins);
  }
}
