/** For each property of the manual that the code breaks: a machine state and an instruction word on which
    it does. */
module Departures {
  import opened Bits
  import opened Util
  import opened Memory
  import opened MemoryMap
  import opened Alignment
  import opened Registers
  import opened ArmCore
  import opened Conditions
  import opened Fields
  import opened Encoding
  import LSM = LoadStoreMultiple
  import BT = BlockTransfer
  import LD = LoadStore
  import ST = SingleTransfer
  import opened Shifter
  import opened DataProcessing
  import DW = DataWords
  import opened FlagProperties
  import opened CarryFlags
  import opened Branch
  import M = Machine

  /** USR, little-endian, with the registers given and 0 in the others. */
  function User(r0: word, r1: word, r2: word, cpsr: word, mem: seq<byte>): (s: State)
    ensures s.Valid() && s.mem == mem && !s.be && s.regs[PC] == 0 && s.regs[3] == 0
    ensures s.regs[0] == r0 && s.regs[1] == r1 && s.regs[2] == r2 && s.regs[CPSR] == cpsr
  {
    State([r0, r1, r2] + seq(13, i => 0) + [cpsr] + seq(20, i => 0), USR, mem, false)
  }

  const C_SET: word := 0x2000_0000

  lemma FlagsAtStart(s: State)
    requires s.Valid()
    ensures s.regs[CPSR] == 0 ==> Flag(s.regs, 29) == 0 && Flag(s.regs, 30) == 0 && Flag(s.regs, T) == 0
    ensures s.regs[CPSR] == C_SET ==> Flag(s.regs, 29) == 1
  {
    if s.regs[CPSR] == 0 {
      BitAboveSize(0, 0, 29);
      BitAboveSize(0, 0, 30);
      BitAboveSize(0, 0, T);
    } else if s.regs[CPSR] == C_SET {
      FieldSizes();
      Pow2Add(24, 5);
      BitOf(s.regs[CPSR], 29, 0x2000_0000, 0, 1, 0);
    }
  }

  lemma Always(s: State, ins: word)
    requires s.Valid() && Cond(ins) == AL
    ensures Passes(s, ins) && ShouldPass(s, ins)
  {
  }

  lemma SmallAddresses(a: nat, n: nat)
    requires a <= 8 && n <= 4
    ensures forall k: nat :: k < n ==> Addr(a, k) == a + k
    ensures InBounds(a + n, a, n)
  {
  }

  // ----- Block transfers -----

  const STMIA_R1_R0: word := 0xE8A1_0001
  const LDMIA_R1_PC: word := 0xE891_8000

  lemma OneWordAtZero(s: State, ins: word)
    requires s.Valid() && |s.mem| == 4 && Rn(ins) == 1 && s.regs[1] == 0
    requires PBit(ins) == 0 && UBit(ins) == 1 && LSM.Count(RegisterList(ins)) == 1
    ensures LSM.BlockStart(s, ins) == 0 && LSM.BlockInBounds(s, ins)
  {
    SmallAddresses(0, 4);
  }

  lemma OneBit(r: nat, j: nat)
    ensures Bit(Doubled(1, r), j) == if j == r then 1 else 0
  {
    BitOfDoubled(1, r, j);
    if j > r {
      BitAboveSize(1, 1, j - r);
    }
  }

  lemma {:induction false} RankOfOne(list: nat, r: nat, i: nat)
    requires list == Doubled(1, r)
    ensures LSM.Rank(list, i) == if i <= r then 0 else 1
    decreases i
  {
    if i > 0 {
      OneBit(r, i - 1);
      RankOfOne(list, r, i - 1);
    }
  }

  /** The list of one register. */
  lemma OneListed(list: half, r: nat)
    requires r < 16 && list as int == Pow2(r)
    ensures LSM.Rank(list, r) == 0 && Bit(list, r) == 1 && LSM.Count(list) == 1
  {
    DoubledIsProduct(1, r);
    OneBit(r, r);
    RankOfOne(list, r, r);
    RankOfOne(list, r, 16);
  }

  /** STMIA R1!, {R0} from R1 = 0 leaves R1 at 0, not 4. */
  lemma StmWriteBackFails()
    ensures var s, stm := User(0, 0, 0, 0, [0, 0, 0, 0]), STMIA_R1_R0;
            && BT.IsStm(stm) && Passes(s, stm) && LSM.BlockInBounds(s, stm) && Rn(stm) == 1
            && LSM.Execute(s, stm).regs[1] == 0 && BT.ArchitecturalBase(s, stm) == 4
  {
    var s, stm := User(0, 0, 0, 0, [0, 0, 0, 0]), STMIA_R1_R0;
    TransferWord(stm, AL, 4, 0, 1, 0, 1, 0, 1, 0, 1);
    ListField(stm, 0xE8A1, 1);
    WithoutWriteBack(s, stm);
  }

  lemma WithoutWriteBack(s: State, stm: word)
    requires s.Valid() && |s.mem| == 4 && Cond(stm) == AL && LBit(stm) == 0 && WBit(stm) == 1
    requires Rn(stm) == 1 && s.regs[1] == 0 && PBit(stm) == 0 && UBit(stm) == 1 && RegisterList(stm) == 1
    ensures Passes(s, stm) && LSM.BlockInBounds(s, stm)
    ensures LSM.Execute(s, stm).regs[1] == 0 && BT.ArchitecturalBase(s, stm) == 4
  {
    OneListed(RegisterList(stm), 0);
    Always(s, stm);
    OneWordAtZero(s, stm);
  }

  /** LDMIA R1, {PC} of the word 8 loads 0, not 8; of the word 1 it leaves T clear. */
  lemma LdmOfPcFails(b: byte)
    requires b == 8 || b == 1
    ensures var s, ldm := User(0, 0, 0, 0, [b, 0, 0, 0]), LDMIA_R1_PC;
            && BT.IsLdm(ldm) && Passes(s, ldm) && LSM.BlockInBounds(s, ldm) && Bit(RegisterList(ldm), 15) == 1
            && LSM.Execute(s, ldm).regs[PC] == 0 && Flag(LSM.Execute(s, ldm).regs, T) == 0
            && InBounds(|s.mem|, Aligned(BT.WordAddress(s, ldm, 15)), 4)
            && Load(s.mem, s.be, W32, Aligned(BT.WordAddress(s, ldm, 15))) == b
  {
    var s, ldm := User(0, 0, 0, 0, [b, 0, 0, 0]), LDMIA_R1_PC;
    assert s.Valid() && OneByte(s.mem, b) && !s.be && s.regs[1] == s.regs[CPSR] == 0;
    TransferWord(ldm, AL, 4, 0, 1, 0, 0, 1, 1, 8, 0);
    ListField(ldm, 0xE891, 0x8000);
    LoadsZero(s, ldm, b);
  }

  lemma LoadsZero(s: State, ldm: word, b: byte)
    requires s.Valid() && OneByte(s.mem, b) && !s.be && s.regs[CPSR] == 0 && Cond(ldm) == AL && LBit(ldm) == 1
    requires Rn(ldm) == 1 && s.regs[1] == 0 && PBit(ldm) == 0 && UBit(ldm) == 1 && RegisterList(ldm) == 0x8000
    ensures Passes(s, ldm) && LSM.BlockInBounds(s, ldm) && Bit(RegisterList(ldm), 15) == 1
    ensures LSM.Execute(s, ldm).regs[PC] == 0 && Flag(LSM.Execute(s, ldm).regs, T) == 0
    ensures InBounds(|s.mem|, Aligned(BT.WordAddress(s, ldm, 15)), 4)
    ensures Load(s.mem, s.be, W32, Aligned(BT.WordAddress(s, ldm, 15))) == b
  {
    OneListed(RegisterList(ldm), 15) by {
      FieldSizes();
      assert Pow2(16) == 2 * Pow2(15);
    }
    Always(s, ldm);
    OneWordAtZero(s, ldm);
    BT.LdmOfPc(s, ldm);
    FlagsAtStart(s);
    AlignedWordOfByte(s.mem, s.be, BT.WordAddress(s, ldm, 15), b);
  }

  predicate OneByte(m: seq<byte>, b: byte) {
    |m| == 4 && m[0] == b && m[1] == m[2] == m[3] == 0
  }

  lemma WordOfByte(m: seq<byte>, a: word, b: byte)
    requires OneByte(m, b) && a == 0
    ensures InBounds(|m|, a, 4) && Load(m, false, W32, a) == b
  {
    assert InBounds(|m|, a, 4) by { SmallAddresses(a, 4); }
    LoadByBytes(m, false, W32, a);
    NextAddresses(a);
  }

  lemma ZeroIsAligned(a: word)
    requires a == 0
    ensures Aligned(a) == a
  {
  }

  lemma AlignedWordOfByte(m: seq<byte>, be: bool, a: word, b: byte)
    requires OneByte(m, b) && a == 0 && !be
    ensures InBounds(|m|, Aligned(a), 4) && Load(m, be, W32, Aligned(a)) == b
  {
    ZeroIsAligned(a);
    WordOfByte(m, a, b);
  }

  lemma NextAddresses(a: word)
    requires a <= 8
    ensures Addr(a, 1) == a + 1 && Addr(a, 2) == a + 2 && Addr(a, 3) == a + 3
  {
  }

  lemma OneWordAtOne(s: State, ins: word)
    requires s.Valid() && |s.mem| == 5 && Rn(ins) == 1 && s.regs[1] == 1 && Cond(ins) == AL
    requires PBit(ins) == 0 && UBit(ins) == 1 && RegisterList(ins) == 1
    ensures Passes(s, ins) && LSM.BlockStart(s, ins) == 1 && LSM.BlockInBounds(s, ins)
    ensures LSM.Count(RegisterList(ins)) == 1 && Bit(RegisterList(ins), 0) == 1 && BT.WordAddress(s, ins, 0) == 1
  {
    OneListed(RegisterList(ins), 0);
    Always(s, ins);
    SmallAddresses(1, 4);
  }

  const LDMIA_R1_R0: word := 0xE891_0001
  const STMIA_R1_R0_KEEP: word := 0xE881_0001

  /** LDMIA R1, {R0} from address 1 does not load the word at 0. */
  lemma UnalignedLdmFails()
    ensures var s, ldm := User(0, 1, 0, 0, [0, 1, 2, 3, 4]), LDMIA_R1_R0;
            && BT.IsLdm(ldm) && Passes(s, ldm) && LSM.BlockInBounds(s, ldm) && Bit(RegisterList(ldm), 0) == 1
            && InBounds(|s.mem|, Aligned(BT.WordAddress(s, ldm, 0)), 4)
            && LSM.Execute(s, ldm).regs[0] != Load(s.mem, s.be, W32, Aligned(BT.WordAddress(s, ldm, 0)))
  {
    var s, ldm := User(0, 1, 0, 0, [0, 1, 2, 3, 4]), LDMIA_R1_R0;
    assert s.Valid() && |s.mem| == 5 && s.mem[0] != s.mem[1] && s.regs[1] == 1;
    TransferWord(ldm, AL, 4, 0, 1, 0, 0, 1, 1, 0, 1);
    ListField(ldm, 0xE891, 1);
    LoadsFromOne(s, ldm);
  }

  lemma LoadsFromOne(s: State, ldm: word)
    requires s.Valid() && |s.mem| == 5 && s.mem[0] != s.mem[1] && Rn(ldm) == 1 && s.regs[1] == 1
    requires Cond(ldm) == AL && LBit(ldm) == 1 && PBit(ldm) == 0 && UBit(ldm) == 1 && RegisterList(ldm) == 1
    ensures Passes(s, ldm) && LSM.BlockInBounds(s, ldm) && Bit(RegisterList(ldm), 0) == 1
    ensures InBounds(|s.mem|, Aligned(BT.WordAddress(s, ldm, 0)), 4)
    ensures LSM.Execute(s, ldm).regs[0] != Load(s.mem, s.be, W32, Aligned(BT.WordAddress(s, ldm, 0)))
  {
    OneWordAtOne(s, ldm);
    var a := BT.WordAddress(s, ldm, 0);
    BT.WhereUnalignedLdmIsRight(s, ldm, 0);
    assert !HeldAt(s.mem, a, 0, s.mem[Addr(Aligned(a), 0)]);
  }

  /** STMIA R1, {R0} of 1 to address 1 does not store at 0. */
  lemma UnalignedStmFails()
    ensures var s, stm := User(1, 1, 0, 0, [0, 0, 0, 0, 0]), STMIA_R1_R0_KEEP;
            && BT.IsStm(stm) && Passes(s, stm) && LSM.BlockInBounds(s, stm) && LSM.BlockStart(s, stm) == 1
            && LSM.Execute(s, stm).mem
               != LSM.StmMem(s.mem, s.be, s.regs, RegisterList(stm), Aligned(LSM.BlockStart(s, stm)), 16)
  {
    var s, stm := User(1, 1, 0, 0, [0, 0, 0, 0, 0]), STMIA_R1_R0_KEEP;
    assert s.Valid() && |s.mem| == 5 && s.mem[0] == 0 && !s.be && s.regs[0] == s.regs[1] == 1;
    TransferWord(stm, AL, 4, 0, 1, 0, 0, 0, 1, 0, 1);
    ListField(stm, 0xE881, 1);
    StoresFromOne(s, stm);
  }

  lemma StoresFromOne(s: State, stm: word)
    requires s.Valid() && |s.mem| == 5 && s.mem[0] == 0 && !s.be && Rn(stm) == 1 && s.regs[0] == s.regs[1] == 1
    requires Cond(stm) == AL && LBit(stm) == 0 && PBit(stm) == 0 && UBit(stm) == 1 && RegisterList(stm) == 1
    ensures Passes(s, stm) && LSM.BlockInBounds(s, stm) && LSM.BlockStart(s, stm) == 1
    ensures LSM.Execute(s, stm).mem
            != LSM.StmMem(s.mem, s.be, s.regs, RegisterList(stm), Aligned(LSM.BlockStart(s, stm)), 16)
  {
    OneWordAtOne(s, stm);
    BlocksDiffer(s.mem, s.regs, RegisterList(stm), LSM.BlockStart(s, stm), 16);
  }

  lemma BlocksDiffer(m: seq<byte>, regs: seq<word>, list: half, start: word, i: nat)
    requires |regs| == SLOTS && regs[0] == 1 && |m| == 5 && m[0] == 0 && start == 1
    requires 0 < i <= 16 && Bit(list, 0) == 1 && LSM.Rank(list, i) == 1
    ensures LSM.StmMem(m, false, regs, list, start, i) != LSM.StmMem(m, false, regs, list, Aligned(start), i)
  {
    var b := BT.ListBytes(false, regs, list, i);
    SmallAddresses(1, 4);
    BT.WhereBlocksAgree(m, false, regs, list, start, i);
    FirstListed(false, regs, list, i);
    assert Addr(Aligned(start), 0) == 0;
    assert !HeldAt(m, Aligned(start), 0, b[0]);
  }

  lemma {:induction false} FirstListed(be: bool, regs: seq<word>, list: half, i: nat)
    requires |regs| == SLOTS && 0 < i <= 16 && Bit(list, 0) == 1
    ensures BT.ListBytes(be, regs, list, i) != []
    ensures BT.ListBytes(be, regs, list, i)[0] == ByteAt(be, W32, regs[0], 0)
    decreases i
  {
    if i > 1 {
      FirstListed(be, regs, list, i - 1);
    }
  }

  // ----- Single transfers -----

  const STR_R0_R1_4: word := 0xE5A1_0004
  const LDR_R0_R1: word := 0xE591_0000
  const STR_R0_R1: word := 0xE581_0000

  /** STR R0, [R1, #4]! from R1 = 0 leaves R1 at 0, not 4. */
  lemma StrWriteBackFails()
    ensures var s, str := User(0, 0, 0, 0, [0, 0, 0, 0, 0, 0, 0, 0]), STR_R0_R1_4;
            && LD.Accessible(s, str) && ST.IsStore(str) && Passes(s, str) && Rn(str) == 1
            && LD.Transfer(s, str).regs[1] == 0 && ST.ArchitecturalBase(s, str) == 4
  {
    var s, str := User(0, 0, 0, 0, [0, 0, 0, 0, 0, 0, 0, 0]), STR_R0_R1_4;
    TransferWord(str, AL, 2, 1, 1, 0, 1, 0, 1, 0, 4);
    StoreWithoutWriteBack(s, str);
  }

  lemma StoreWithoutWriteBack(s: State, str: word)
    requires s.Valid() && |s.mem| == 8 && s.regs[1] == 0 && Cond(str) == AL
    requires Class(str) == 2 && PBit(str) == UBit(str) == WBit(str) == 1 && BBit(str) == LBit(str) == 0
    requires Rn(str) == 1 && Immediate12(str) == 4
    ensures Passes(s, str)
    ensures LD.Accessible(s, str) && LD.Transfer(s, str).regs[1] == 0 && ST.ArchitecturalBase(s, str) == 4
  {
    Always(s, str);
    SmallAddresses(4, 4);
    assert LD.Indexed(s.regs, str) == 4;
  }

  /** LDR R0, [R1] from address 1 of the bytes 0, 1, 2, 3, 4 loads 0x04030201, not 0x00030201. */
  lemma UnalignedLoadFails()
    ensures var s, ldr := User(0, 1, 0, 0, [0, 1, 2, 3, 4]), LDR_R0_R1;
            && LD.Accessible(s, ldr) && !ST.IsStore(ldr) && BBit(ldr) == 0 && Rd(ldr) == 0
            && LD.EffectiveAddress(s.regs, ldr) == 1
            && LD.Transfer(s, ldr).regs[0] != ST.ArchitecturalWord(s.mem, s.be, LD.EffectiveAddress(s.regs, ldr))
  {
    var s, ldr := User(0, 1, 0, 0, [0, 1, 2, 3, 4]), LDR_R0_R1;
    assert s.Valid() && |s.mem| == 5 && s.mem[4] != s.mem[0] && !s.be && s.regs[1] == 1;
    TransferWord(ldr, AL, 2, 1, 1, 0, 0, 1, 1, 0, 0);
    LoadFromOne(s, ldr);
  }

  lemma LoadFromOne(s: State, ldr: word)
    requires s.Valid() && |s.mem| == 5 && s.mem[4] != s.mem[0] && !s.be && s.regs[1] == 1
    requires Class(ldr) == 2 && PBit(ldr) == UBit(ldr) == LBit(ldr) == 1 && BBit(ldr) == WBit(ldr) == 0
    requires Rn(ldr) == 1 && Rd(ldr) == 0 && Immediate12(ldr) == 0
    ensures LD.Accessible(s, ldr) && LD.EffectiveAddress(s.regs, ldr) == 1
    ensures LD.Transfer(s, ldr).regs[0] != ST.ArchitecturalWord(s.mem, s.be, LD.EffectiveAddress(s.regs, ldr))
  {
    SmallAddresses(1, 4);
    assert LD.EffectiveAddress(s.regs, ldr) == 1;
    var a: word := 1;
    ST.WhereUnalignedLoadIsRight(s, ldr);
    ST.LittleEndianPlaces(s.mem, a, 3);
    assert Addr(a, 3) == 4 && Addr(a, 3 - 4) == 0;
  }

  const LDR_PC_R1: word := 0xE591_F000

  /** LDR PC, [R1] of the word 9 leaves 9 in R15, not 8, and sets no T bit. */
  lemma LoadOfPcFails()
    ensures var s, ldr := User(0, 0, 0, 0, [9, 0, 0, 0]), LDR_PC_R1;
            && LD.Accessible(s, ldr) && !ST.IsStore(ldr) && BBit(ldr) == 0 && Rd(ldr) == PC
            && LD.EffectiveAddress(s.regs, ldr) == 0
            && LD.Transfer(s, ldr).regs == s.regs[PC := 9]
  {
    var s, ldr := User(0, 0, 0, 0, [9, 0, 0, 0]), LDR_PC_R1;
    assert s.Valid() && OneByte(s.mem, 9) && !s.be && s.regs[1] == 0;
    TransferWord(ldr, AL, 2, 1, 1, 0, 0, 1, 1, 15, 0);
    LoadsNine(s, ldr, 9);
  }

  lemma LoadInto(s: State, ldr: word, a: word)
    requires s.Valid() && LD.Accessible(s, ldr) && LBit(ldr) == 1 && BBit(ldr) == 0
    requires a == LD.EffectiveAddress(s.regs, ldr)
    ensures LD.Transfer(s, ldr).regs == s.regs[Rd(ldr) := Load(s.mem, s.be, W32, a)]
  {
  }

  lemma LoadsNine(s: State, ldr: word, b: byte)
    requires s.Valid() && OneByte(s.mem, b) && !s.be && s.regs[1] == 0
    requires Class(ldr) == 2 && PBit(ldr) == UBit(ldr) == LBit(ldr) == 1 && BBit(ldr) == WBit(ldr) == 0
    requires Rn(ldr) == 1 && Rd(ldr) == PC && Immediate12(ldr) == 0
    ensures LD.Accessible(s, ldr) && LD.EffectiveAddress(s.regs, ldr) == 0
    ensures LD.Transfer(s, ldr).regs == s.regs[PC := b]
  {
    SmallAddresses(0, 4);
    var a := LD.EffectiveAddress(s.regs, ldr);
    assert a == 0;
    assert LD.AccessWidth(ldr) == W32;
    LoadInto(s, ldr, a);
    WordOfByte(s.mem, a, b);
  }

  /** STR R0, [R1] of 1 to address 1 leaves the byte at 0 as it was, where the manual stores at 0. */
  lemma UnalignedStoreFails()
    ensures var s, str := User(1, 1, 0, 0, [0, 0, 0, 0, 0]), STR_R0_R1;
            && LD.Accessible(s, str) && ST.IsStore(str) && BBit(str) == 0
            && var a := LD.EffectiveAddress(s.regs, str);
               a == 1 && LD.Transfer(s, str).mem != Store(s.mem, s.be, W32, Aligned(a), s.regs[0])
  {
    var s, str := User(1, 1, 0, 0, [0, 0, 0, 0, 0]), STR_R0_R1;
    assert s.Valid() && |s.mem| == 5 && s.mem[0] == 0 && !s.be && s.regs[0] == s.regs[1] == 1;
    TransferWord(str, AL, 2, 1, 1, 0, 0, 0, 1, 0, 0);
    StoreAtOne(s, str);
  }

  lemma StoreAtOne(s: State, str: word)
    requires s.Valid() && |s.mem| == 5 && s.mem[0] == 0 && !s.be && s.regs[0] == s.regs[1] == 1
    requires Class(str) == 2 && PBit(str) == UBit(str) == 1 && LBit(str) == BBit(str) == WBit(str) == 0
    requires Rn(str) == 1 && Rd(str) == 0 && Immediate12(str) == 0
    ensures LD.Accessible(s, str)
    ensures var a := LD.EffectiveAddress(s.regs, str);
            a == 1 && LD.Transfer(s, str).mem != Store(s.mem, s.be, W32, Aligned(a), s.regs[0])
  {
    SmallAddresses(1, 4);
    var a := LD.EffectiveAddress(s.regs, str);
    assert a == 1;
    StoresDiffer(s.mem, a, s.regs[0]);
  }

  lemma StoresDiffer(m: seq<byte>, a: word, v: word)
    requires |m| == 5 && m[0] == 0 && a == v == 1
    ensures Store(m, false, W32, a, v) != Store(m, false, W32, Aligned(a), v)
  {
    StoreIsImage(m, false, a, v);
    StoreIsImage(m, false, Aligned(a), v);
    var b := SplitWord(false, v);
    assert InBounds(|m|, a, 4) by { SmallAddresses(a, 4); }
    ImagesAt(m, a, b, 0);
    FirstByte(a);
  }

  lemma FirstByte(a: word)
    requires a == 1
    ensures Addr(Aligned(a), 0) == 0 && a % 4 == 1
  {
  }

  // ----- Shifted operands -----

  /** MOV R0, R1 shifted by 4. */
  function ShiftedMove(kind: nat): word
    requires kind < 4
  {
    0xE1A0_0201 + 0x20 * kind
  }

  predicate Runs(s: State, ins: word) {
    ShifterDefined(s, ins) && Process(s, ins).Returned? && |Process(s, ins).value.regs| == SLOTS
  }

  function After(s: State, ins: word): (t: State)
    requires Runs(s, ins)
    ensures |t.regs| == SLOTS
  {
    Process(s, ins).value
  }

  lemma MovedOperand(s: State, mov: word, kind: nat)
    requires s.Valid() && LSR <= kind <= ROR && mov == ShiftedMove(kind)
    ensures Runs(s, mov) && After(s, mov).regs[0] == ShiftOperation(s.regs[1], kind, 4)
  {
    DataWord(mov, AL, 13, 0, 0, 0, 4, kind, 1);
    OperandShifted(s, mov, kind);
    MoveEffect(s, mov);
  }

  lemma OperandShifted(s: State, ins: word, kind: nat)
    requires s.Valid() && LSR <= kind <= ROR && GetBit(ins, 25) == 0 && GetBit(ins, 4) == 0
    requires ShiftAmount(ins) == 4 && ShiftCode(ins) == kind && Rm(ins) == 1
    ensures ShifterDefined(s, ins)
    ensures ShifterOperand(s.regs, ins, Operand(0, 0)).value == ShiftOperation(s.regs[1], kind, 4)
  {
  }

  lemma MoveEffect(s: State, mov: word)
    requires ShifterDefined(s, mov) && Opcode(mov) == 13 && GetBit(mov, 20) == 0 && Rd(mov) == 0
    ensures Process(s, mov) ==
            Returned(s.(regs := s.regs[0 := ShifterOperand(s.regs, mov, Operand(0, 0)).value]))
  {
  }

  lemma WrongShift(x: word, kind: nat)
    requires x == 0x100 && LSR <= kind <= ROR
    ensures ShiftOperation(x, kind, 4) != Shifted(kind, x, 4)
  {
    WhereShiftIsRight(kind, x, 4);
  }

  /** MOV R0, R1, LSR #4 (ASR #4, ROR #4) of 0x100 gives 0x80 (0x40, 0x20), not 0x10. */
  lemma ShiftFails(kind: nat)
    requires LSR <= kind <= ROR
    ensures var s, mov := User(0, 0x100, 0, 0, []), ShiftedMove(kind);
            Runs(s, mov) && After(s, mov).regs[0] != Shifted(kind, s.regs[1], 4)
  {
    var s := User(0, 0x100, 0, 0, []);
    MovedOperand(s, ShiftedMove(kind), kind);
    WrongShift(s.regs[1], kind);
  }

  // ----- Flags -----

  /** The arithmetic operation `opcode` on R0, R1, R2 with S=1. */
  function OnRegisters(opcode: nat): word
    requires opcode < 16
  {
    0xE011_0002 + 0x20_0000 * opcode
  }

  lemma PlainOperand(s: State, ins: word)
    requires s.Valid() && GetBit(ins, 25) == 0 && GetBit(ins, 4) == 0
    requires ShiftAmount(ins) == 0 && ShiftCode(ins) == LSL && Rm(ins) == 2
    ensures ShifterDefined(s, ins) && ShifterOperand(s.regs, ins, Operand(0, 0)).value == s.regs[2]
  {
    assert Doubled(s.regs[2], 0) == s.regs[2];
  }

  lemma RegisterOperation(s: State, opcode: nat)
    requires s.Valid() && 2 <= opcode <= 7
    ensures ShifterDefined(s, OnRegisters(opcode))
    ensures Process(s, OnRegisters(opcode)) == Returned(Computed(s, opcode, 1, 0, 1, s.regs[2], 0))
  {
    var ins := OnRegisters(opcode);
    DataWord(ins, AL, opcode, 1, 1, 0, 0, LSL, 2);
    PlainOperand(s, ins);
    var o := ShifterOperand(s.regs, ins, Operand(0, 0));
    assert Process(s, ins) == Returned(Computed(s, opcode, 1, 0, 1, o.value, o.carry));
    DW.CarryUnused(s, opcode, 0, 1, o.value, o.carry);
  }

  /** The state after the operation on R1 = x and R2 = y. */
  function Result(opcode: nat, x: word, y: word, cpsr: word): (t: State)
    requires 2 <= opcode <= 7
    ensures Runs(User(0, x, y, cpsr, []), OnRegisters(opcode))
    ensures t == After(User(0, x, y, cpsr, []), OnRegisters(opcode)) && |t.regs| == SLOTS
    ensures t == Computed(User(0, x, y, cpsr, []), opcode, 1, 0, 1, y, 0)
  {
    RegisterOperation(User(0, x, y, cpsr, []), opcode);
    After(User(0, x, y, cpsr, []), OnRegisters(opcode))
  }

  /** ADDS: 0xFFFFFFFF + 1 leaves C clear; 1 + 1 sets V. */
  lemma AddFlagsFail()
    ensures Flag(Result(4, 0xFFFF_FFFF, 1, 0).regs, 29) == 0
    ensures Flag(Result(4, 1, 1, 0).regs, 28) == 1
  {
    WhereAddCarryIsRight(User(0, 0xFFFF_FFFF, 1, 0, []), 0, 1, 1);
    WhereAddOverflowIsRight(User(0, 1, 1, 0, []), 0, 1, 1);
  }

  /** SUBS and RSBS of 1 and 1 leave C clear if it was; SUBS sets V. */
  lemma SubtractFlagsFail()
    ensures Flag(Result(2, 1, 1, 0).regs, 29) == 0 && Flag(Result(3, 1, 1, 0).regs, 29) == 0
    ensures Flag(Result(2, 1, 1, 0).regs, 28) == 1
  {
    var s := User(0, 1, 1, 0, []);
    FlagsAtStart(s);
    WhereSubtractCarryIsRight(s, 2, 0, 1, 1);
    WhereSubtractCarryIsRight(s, 3, 0, 1, 1);
    WhereSubOverflowIsRight(s, 0, 1, 1);
  }

  /** ADCS with C clear: 0xFFFFFFFF + 1 leaves C clear; 1 + 1 sets V. */
  lemma AdcFlagsFail()
    ensures Flag(Result(5, 0xFFFF_FFFF, 1, 0).regs, 29) == 0 && CarryAsked(5, 0xFFFF_FFFF, 1, 0)
    ensures Flag(Result(5, 1, 1, 0).regs, 28) == 1 && !OverflowAsked(5, 1, 1, 0)
  {
    var s, t := User(0, 0xFFFF_FFFF, 1, 0, []), User(0, 1, 1, 0, []);
    FlagsAtStart(s);
    FlagsAtStart(t);
    WhereAdcIsRight(s, 0, 1, 1);
    WhereAdcIsRight(t, 0, 1, 1);
  }

  /** SBCS with C set: 5 - 3 gives 4; 3 - 3 clears C; 0x7FFFFFFF - (-1) leaves V clear. */
  lemma SbcFails()
    ensures Result(6, 5, 3, C_SET).regs[0] == 4 && Exact(6, 5, 3, 1) == 2
    ensures Flag(Result(6, 3, 3, C_SET).regs, 29) == 0 && CarryAsked(6, 3, 3, 1)
    ensures Flag(Result(6, 0x7FFF_FFFF, 0xFFFF_FFFF, C_SET).regs, 28) == 0
    ensures OverflowAsked(6, 0x7FFF_FFFF, 0xFFFF_FFFF, 1)
  {
    var s, t := User(0, 5, 3, C_SET, []), User(0, 3, 3, C_SET, []);
    var u := User(0, 0x7FFF_FFFF, 0xFFFF_FFFF, C_SET, []);
    FlagsAtStart(s);
    FlagsAtStart(t);
    FlagsAtStart(u);
    WhereSbcIsRight(s, 0, 1, 3);
    WhereSbcIsRight(t, 0, 1, 3);
    WhereSbcIsRight(u, 0, 1, 0xFFFF_FFFF);
  }

  /** SBCS with C set: 3 - 3 leaves Z clear; 1 - 3 sets Z and leaves N clear. */
  lemma SbcSignsFail()
    ensures Flag(Result(6, 3, 3, C_SET).regs, 30) == 0 && Exact(6, 3, 3, 1) == 0
    ensures Flag(Result(6, 1, 3, C_SET).regs, 30) == 1 && Flag(Result(6, 1, 3, C_SET).regs, 31) == 0
    ensures Exact(6, 1, 3, 1) == -2
  {
    var s, t := User(0, 3, 3, C_SET, []), User(0, 1, 3, C_SET, []);
    FlagsAtStart(s);
    FlagsAtStart(t);
    WhereSbcIsRight(s, 0, 1, 3);
    WhereSbcIsRight(t, 0, 1, 3);
  }

  /** RSCS with C set: 3 - 3 leaves Z clear; 1 - 3 sets Z and leaves N clear. */
  lemma RscSignsFail()
    ensures Flag(Result(7, 3, 3, C_SET).regs, 30) == 0 && Exact(7, 3, 3, 1) == 0
    ensures Flag(Result(7, 3, 1, C_SET).regs, 30) == 1 && Flag(Result(7, 3, 1, C_SET).regs, 31) == 0
    ensures Exact(7, 3, 1, 1) == -2
  {
    var s, t := User(0, 3, 3, C_SET, []), User(0, 3, 1, C_SET, []);
    FlagsAtStart(s);
    FlagsAtStart(t);
    WhereRscIsRight(s, 0, 1, 3);
    WhereRscIsRight(t, 0, 1, 1);
  }

  /** RSCS with C set: 5 - 3 gives 4; 3 - 4 leaves C set; 0x7FFFFFFF - (-1) leaves V clear. */
  lemma RscFails()
    ensures Result(7, 3, 5, C_SET).regs[0] == 4 && Exact(7, 3, 5, 1) == 2
    ensures Flag(Result(7, 4, 3, C_SET).regs, 29) == 1 && !CarryAsked(7, 4, 3, 1)
    ensures Flag(Result(7, 0xFFFF_FFFF, 0x7FFF_FFFF, C_SET).regs, 28) == 0
    ensures OverflowAsked(7, 0xFFFF_FFFF, 0x7FFF_FFFF, 1)
  {
    var s, t := User(0, 3, 5, C_SET, []), User(0, 4, 3, C_SET, []);
    var u := User(0, 0xFFFF_FFFF, 0x7FFF_FFFF, C_SET, []);
    FlagsAtStart(s);
    FlagsAtStart(t);
    FlagsAtStart(u);
    WhereRscIsRight(s, 0, 1, 5);
    WhereRscIsRight(t, 0, 1, 3);
    WhereRscIsRight(u, 0, 1, 0x7FFF_FFFF);
  }

  // ----- Compares -----

  lemma RegisterCompare(s: State, opcode: nat, ins: word)
    requires s.Valid() && Compares(opcode) && ins == OnRegisters(opcode)
    ensures ShifterDefined(s, ins)
    ensures Process(s, ins) == Compared(s, opcode, 1, s.regs[2], ShifterOperand(s.regs, ins, Operand(0, 0)).carry)
  {
    DataWord(ins, AL, opcode, 1, 1, 0, 0, LSL, 2);
    PlainOperand(s, ins);
  }

  /** A compare of R1 with R2 whose result names one of R0..R15. */
  predicate Names(opcode: nat, x: word, y: word) {
    Compares(opcode) && Alu(opcode, x, y, 0) % 0x100 < 16
  }

  lemma NamesRuns(s: State, opcode: nat, carry: byte)
    requires s.Valid() && Names(opcode, s.regs[1], s.regs[2])
    ensures var o := Compared(s, opcode, 1, s.regs[2], carry); o.Returned? && |o.value.regs| == SLOTS
  {
    ComparedFrame(s, opcode, 1, s.regs[2], carry);
  }

  /** The state after the compare, and the carry-out that went into it. */
  function CompareResult(opcode: nat, r0: word, x: word, y: word): (t: State)
    requires Names(opcode, x, y)
    ensures var s := User(r0, x, y, 0, []);
            && Runs(s, OnRegisters(opcode)) && t == After(s, OnRegisters(opcode)) && |t.regs| == SLOTS
            && Compared(s, opcode, 1, y, CarryIn(opcode, r0, x, y)) == Returned(t)
  {
    var s := User(r0, x, y, 0, []);
    RegisterCompare(s, opcode, OnRegisters(opcode));
    NamesRuns(s, opcode, CarryIn(opcode, r0, x, y));
    After(s, OnRegisters(opcode))
  }

  function CarryIn(opcode: nat, r0: word, x: word, y: word): byte
    requires Names(opcode, x, y)
  {
    var s := User(r0, x, y, 0, []);
    RegisterCompare(s, opcode, OnRegisters(opcode));
    ShifterOperand(s.regs, OnRegisters(opcode), Operand(0, 0)).carry
  }

  /** An operand for which each compare's result is x. */
  function Neutral(opcode: nat, x: word): word {
    if opcode == 8 then x else 0
  }

  lemma NeutralResult(opcode: nat, x: word, y: word, c: nat)
    requires Compares(opcode) && y == Neutral(opcode, x)
    ensures Alu(opcode, x, y, c) == x
  {
    AndWithItself(x);
    XorWithZero(x);
  }

  /** N and Z after a compare of x with its neutral operand, when x names a register below R15. */
  lemma NeutralSigns(opcode: nat, x: word, d: nat)
    requires Compares(opcode) && d == x % 0x100 && d < 15
    ensures Names(opcode, x, Neutral(opcode, x))
    ensures var r, t := User(0, x, Neutral(opcode, x), 0, []).regs[d],
                        CompareResult(opcode, 0, x, Neutral(opcode, x));
            && Flag(t.regs, 31) == (if Signed(r) < 0 then 1 else 0)
            && Flag(t.regs, 30) == (if r == 0 then 1 else 0)
  {
    var s, y := User(0, x, Neutral(opcode, x), 0, []), Neutral(opcode, x);
    NeutralResult(opcode, x, y, 0);
    NeutralResult(opcode, x, y, Flag(s.regs, 29));
    CompareDescribesRegister(s, opcode, 1, y, CarryIn(opcode, 0, x, y));
  }

  /** TST of 3 and 3, TEQ, CMP and CMN of 3 and 0 set Z when R3 is 0. */
  lemma CompareZeroFails(opcode: nat, x: word)
    requires Compares(opcode) && x == 3
    ensures Names(opcode, x, Neutral(opcode, x))
    ensures Flag(CompareResult(opcode, 0, x, Neutral(opcode, x)).regs, 30) == 1
  {
    NeutralSigns(opcode, x, 3);
  }

  /** TST of 0x80000000 with itself, TEQ, CMP and CMN of it with 0 leave N clear when R0 is 0. */
  lemma CompareSignFails(opcode: nat, x: word)
    requires Compares(opcode) && x == 0x8000_0000
    ensures Names(opcode, x, Neutral(opcode, x))
    ensures Flag(CompareResult(opcode, 0, x, Neutral(opcode, x)).regs, 31) == 0
  {
    NeutralSigns(opcode, x, 0);
  }

  /** CMP of equal values with R0 = 1 leaves Z clear, and C clear if it was. */
  lemma CompareFails(x: word)
    ensures Names(10, x, x)
    ensures Flag(CompareResult(10, 1, x, x).regs, 30) == 0 && Flag(CompareResult(10, 1, x, x).regs, 29) == 0
  {
    var s := User(1, x, x, 0, []);
    FlagsAtStart(s);
    assert Names(10, x, x);
    CmpOfEqualOperands(s, 1, CarryIn(10, 1, x, x));
    DW.CompareWithoutCarry(s, 10, 1, x, CarryIn(10, 1, x, x));
    CmpCarryAndOverflow(s, 1, x);
  }

  /** CMN of 0xFFFFFFFF and 1 leaves C clear; CMN of 1 and 1 sets V. */
  lemma CmnFlagsFail(x: word)
    requires x == 1 || x == 0xFFFF_FFFF
    ensures Names(11, x, 1)
    ensures x == 0xFFFF_FFFF ==> Flag(CompareResult(11, 0, x, 1).regs, 29) == 0
    ensures x == 1 ==> Flag(CompareResult(11, 0, x, 1).regs, 28) == 1
  {
    var s := User(0, x, 1, 0, []);
    assert Names(11, x, 1);
    DW.CompareWithoutCarry(s, 11, 1, 1, CarryIn(11, 0, x, 1));
    CmnCarryAndOverflow(s, 1, 1);
  }

  // ----- Conditions at dispatch -----

  const BEQ: word := 0x0A00_0000

  /** BEQ moves R15 although Z is clear. */
  lemma FailedConditionFails()
    ensures var s := User(0, 0, 0, 0, []);
            && M.Executable(s, BEQ) && !Passes(s, BEQ) && M.Dispatch(s, BEQ).Returned?
            && |M.Dispatch(s, BEQ).value.state.regs| == SLOTS && M.Dispatch(s, BEQ).value.state.regs[PC] == 4
  {
    var s, beq := User(0, 0, 0, 0, []), BEQ;
    FlagsAtStart(s);
    FieldSizes();
    TopFields(beq, EQ, 5, 0);
    FieldOf(beq, 23, 0, 1, 0x100_0000, 10, 0, 0);
    BranchTaken(s, beq);
  }

  lemma BranchTaken(s: State, b: word)
    requires s.Valid() && s.regs[PC] == 0 && Class(b) == 5 && Immediate24(b) == 0
    ensures M.Executable(s, b) && M.Dispatch(s, b).Returned?
    ensures var t := M.Dispatch(s, b).value.state; |t.regs| == SLOTS && t.regs[PC] == 4
  {
    AlignedRead(s.regs[PC]);
    assert BranchRegs(s.regs, b)[PC] == 4;
  }
}
