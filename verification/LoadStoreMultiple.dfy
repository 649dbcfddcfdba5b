/** arm_load_store_multiple of arm_load_store.c: LDM and STM over the register list. */
module LoadStoreMultiple {
  import opened Bits
  import opened Util
  import opened Memory
  import opened Registers
  import opened ArmCore
  import opened Conditions
  import opened Fields

  // ----- Counting the list -----

  /** How many listed registers have a number below `i`. */
  function Rank(list: nat, i: nat): (r: nat)
    ensures r <= i
    decreases i, list
  {
    if i == 0 then 0 else Rank(list, i - 1) + Bit(list, i - 1)
  }

  /** How many registers are listed. */
  function Count(list: half): (r: nat)
    ensures r <= 16
  {
    Rank(list, 16)
  }

  lemma {:induction false} RankFromBelow(list: nat, i: nat)
    requires i > 0
    ensures Rank(list, i) == list % 2 + Rank(list / 2, i - 1)
    decreases i
  {
    if i > 1 {
      RankFromBelow(list, i - 1);
    }
  }

  lemma {:induction false} RankIsPopcount(list: nat, i: nat)
    requires list < Pow2(i)
    ensures Rank(list, i) == Popcount(list)
    decreases i
  {
    if i > 0 {
      RankFromBelow(list, i);
      RankIsPopcount(list / 2, i - 1);
    }
  }

  lemma {:induction false} RankMonotone(list: nat, i: nat, j: nat)
    requires i <= j
    ensures Rank(list, i) <= Rank(list, j)
    decreases j
  {
    if i < j {
      RankMonotone(list, i, j - 1);
    }
  }

  /** number_set_bits_in */
  method NumberSetBitsIn(list: half) returns (c: byte)
    ensures c == Count(list)
  {
    c := 0;
    var n: int := list;
    assert list < Pow2(16) by { FieldSizes(); }
    RankIsPopcount(list, 16);
    while n != 0
      invariant 0 <= n <= list
      invariant c + Popcount(n) == Popcount(list) <= 16
      decreases n
    {
      c := c + n % 2;
      n := n / 2;
    }
  }

  // ----- Addresses -----

  /** start_address for the four modes: P says before or after, U up or down. */
  function StartAddress(p: nat, u: nat, base: word, n: nat): word {
    if p == 0 && u == 1 then base
    else if p == 1 && u == 1 then Addr(base, 4)
    else if p == 0 then Addr(base, 4 - 4 * n)
    else Addr(base, -4 * n)
  }

  /** end_address, the last word of the block. */
  function EndAddress(p: nat, u: nat, base: word, n: nat): word {
    if p == 0 && u == 1 then Addr(base, 4 * n - 4)
    else if p == 1 && u == 1 then Addr(base, 4 * n)
    else if p == 0 then base
    else Addr(base, -4)
  }

  /** The base register value each mode computes for write-back. */
  function NewBase(u: nat, base: word, n: nat): word {
    if u == 1 then Addr(base, 4 * n) else Addr(base, -4 * n)
  }

  /** The code's own assert: the address reached by the transfer is one word past end_address,
      for every list and mode, with wrap-around. */
  lemma EndIsReached(p: nat, u: nat, base: word, n: nat)
    requires p <= 1 && u <= 1
    ensures EndAddress(p, u, base, n) == Addr(Addr(StartAddress(p, u, base, n), 4 * n), -4)
  {
    var start := StartAddress(p, u, base, n);
    AddrAdds(start, 4 * n, -4);
    if p == 1 && u == 1 {
      AddrAdds(base, 4, 4 * n - 4);
    } else if p == 0 && u == 0 {
      AddrAdds(base, 4 - 4 * n, 4 * n - 4);
    } else if u == 0 {
      AddrAdds(base, -4 * n, 4 * n - 4);
    }
  }

  lemma WordInBlock(size: nat, start: word, n: nat, j: nat)
    requires InBounds(size, start, 4 * n) && j < n
    ensures InBounds(size, Addr(start, 4 * j), 4)
  {
    forall k: nat | k < 4
      ensures Addr(Addr(start, 4 * j), k) < size
    {
      AddrAdds(start, 4 * j, k);
    }
  }

  /** Where a listed register's word lies. */
  function Slot(list: half, start: word, r: nat): word {
    Addr(start, 4 * Rank(list, r))
  }

  lemma NextSlot(list: half, start: word, r: nat)
    ensures Slot(list, start, r + 1)
         == if Bit(list, r) == 1 then Addr(Slot(list, start, r), 4) else Slot(list, start, r)
  {
    assert Rank(list, r + 1) == Rank(list, r) + Bit(list, r);
    AddrAdds(start, 4 * Rank(list, r), 4);
  }

  lemma SlotInBlock(size: nat, list: half, start: word, r: nat)
    requires InBounds(size, start, 4 * Count(list)) && r < 16 && Bit(list, r) == 1
    ensures InBounds(size, Slot(list, start, r), 4)
  {
    RankMonotone(list, r + 1, 16);
    WordInBlock(size, start, Count(list), Rank(list, r));
  }

  // ----- The two transfers -----

  /** Memory after the registers below `i` have been stored. */
  function StmMem(m: seq<byte>, be: bool, regs: seq<word>, list: half, start: word, i: nat): (m': seq<byte>)
    requires |regs| == SLOTS && i <= 16
    ensures |m'| == |m|
  {
    if i == 0 then m
    else
      var prev := StmMem(m, be, regs, list, start, i - 1);
      if Bit(list, i - 1) == 1 then Store(prev, be, W32, Slot(list, start, i - 1), ReadReg(regs, i - 1)) else prev
  }

  function LdmWord(m: seq<byte>, be: bool, list: half, start: word, r: nat): word
    requires InBounds(|m|, start, 4 * Count(list)) && r < 16 && Bit(list, r) == 1
  {
    SlotInBlock(|m|, list, start, r);
    Load(m, be, W32, Slot(list, start, r))
  }

  /** Registers after those below `i` have been loaded.  A listed R15 gets the return code of
      the read, which is 0, and not the word read. */
  function LdmRegs(regs: seq<word>, m: seq<byte>, be: bool, list: half, start: word, i: nat): (regs': seq<word>)
    requires |regs| == SLOTS && InBounds(|m|, start, 4 * Count(list)) && i <= 16
    ensures |regs'| == SLOTS
  {
    if i == 0 then regs
    else
      var prev := LdmRegs(regs, m, be, list, start, i - 1);
      if Bit(list, i - 1) == 0 then prev
      else prev[i - 1 := if i == 16 then 0 else LdmWord(m, be, list, start, i - 1)]
  }

  lemma LdmStep(regs: seq<word>, m: seq<byte>, be: bool, list: half, start: word, i: nat)
    requires |regs| == SLOTS && InBounds(|m|, start, 4 * Count(list)) && i < 15
    ensures var prev := LdmRegs(regs, m, be, list, start, i);
            LdmRegs(regs, m, be, list, start, i + 1) ==
            if Bit(list, i) == 0 then prev else prev[i := LdmWord(m, be, list, start, i)]
  {
  }

  // ----- The instruction -----

  function BlockStart(s: State, ins: word): word
    requires |s.regs| == SLOTS
  {
    StartAddress(PBit(ins), UBit(ins), ReadReg(s.regs, Rn(ins)), Count(RegisterList(ins)))
  }

  /** The C indexes the byte array unchecked, so the whole block has to exist. */
  predicate BlockInBounds(s: State, ins: word)
    requires |s.regs| == SLOTS
  {
    Passes(s, ins) ==> InBounds(|s.mem|, BlockStart(s, ins), 4 * Count(RegisterList(ins)))
  }

  function Execute(s: State, ins: word): State
    requires |s.regs| == SLOTS && BlockInBounds(s, ins)
  {
    if !Passes(s, ins) then s
    else if LBit(ins) == 1 then s.(regs := LdmRegs(s.regs, s.mem, s.be, RegisterList(ins), BlockStart(s, ins), 16))
    else s.(mem := StmMem(s.mem, s.be, s.regs, RegisterList(ins), BlockStart(s, ins), 16))
  }

  /** The four addressing modes.  The new base stays in the local `rn`; no caller stores it. */
  method Addresses(P: nat, W: nat, U: nat, base: word, registerList: half, passes: bool)
    returns (start: word, end: word, rn: word)
    requires P <= 1 && W <= 1 && U <= 1
    ensures start == StartAddress(P, U, base, Count(registerList))
    ensures end == EndAddress(P, U, base, Count(registerList))
    ensures rn == if passes && W == 1 then NewBase(U, base, Count(registerList)) else base
  {
    rn := base;
    var b: int := base;
    var n: int := NumberSetBitsIn(registerList);
    if P == 0 && U == 1 {
      start := b;
      end := Wrap(b + n * 4 - 4);
      if passes && W == 1 {
        rn := Wrap(b + n * 4);
      }
    } else if P == 1 && U == 1 {
      start := Wrap(b + 4);
      end := Wrap(b + n * 4);
      if passes && W == 1 {
        rn := Wrap(b + n * 4);
      }
    } else if P == 0 && U == 0 {
      start := Wrap(b - n * 4 + 4);
      end := b;
      if passes && W == 1 {
        rn := Wrap(b - n * 4);
      }
    } else {
      start := Wrap(b - n * 4);
      end := Wrap(b - 4);
      if passes && W == 1 {
        rn := Wrap(b - n * 4);
      }
    }
  }

  /** The LDM transfer; `address` ends one word past the last one read. */
  method LoadRegisters(p: Core, registerList: half, start: word) returns (address: word)
    requires p.Valid() && InBounds(p.mem.octets.Length, start, 4 * Count(registerList))
    modifies p.reg.regs
    ensures p.View() == old(p.View()).(
              regs := LdmRegs(old(p.reg.regs[..]), p.mem.octets[..], p.mem.isBigEndian, registerList, start, 16))
    ensures address == Addr(start, 4 * Count(registerList))
  {
    ghost var before, m, be := p.reg.regs[..], p.mem.octets[..], p.mem.isBigEndian;
    address := start;
    var i := 0;
    while i <= 14
      invariant 0 <= i <= 15
      invariant address == Slot(registerList, start, i)
      invariant p.Valid() && p.mem.octets[..] == m
      invariant p.reg.regs[..] == LdmRegs(before, m, be, registerList, start, i)
    {
      LdmStep(before, m, be, registerList, start, i);
      address := LoadOne(p, registerList, start, i, address);
      i := i + 1;
    }
    address := LoadPc(p, registerList, start, address);
  }

  /** One turn of the loop. */
  method LoadOne(p: Core, registerList: half, start: word, i: nat, address: word) returns (next: word)
    requires p.Valid() && InBounds(p.mem.octets.Length, start, 4 * Count(registerList))
    requires i < 15 && address == Slot(registerList, start, i)
    modifies p.reg.regs
    ensures p.View() == old(p.View()).(
              regs := if Bit(registerList, i) == 0 then old(p.reg.regs[..])
                      else old(p.reg.regs[..])[
                             i := LdmWord(p.mem.octets[..], p.mem.isBigEndian, registerList, start, i)])
    ensures next == Slot(registerList, start, i + 1)
  {
    next := address;
    NextSlot(registerList, start, i);
    if GetBit(registerList, i) == 1 {
      SlotInBlock(p.mem.octets.Length, registerList, start, i);
      var _, value := p.ReadWord(address);
      p.WriteRegister(i, value);
      next := Addr(address, 4);
    }
  }

  method LoadPc(p: Core, registerList: half, start: word, next: word) returns (address: word)
    requires p.Valid() && InBounds(p.mem.octets.Length, start, 4 * Count(registerList))
    requires next == Slot(registerList, start, 15)
    modifies p.reg.regs
    ensures p.View() == old(p.View()).(
              regs := if Bit(registerList, 15) == 1 then old(p.reg.regs[..])[PC := 0] else old(p.reg.regs[..]))
    ensures address == Addr(start, 4 * Count(registerList))
  {
    address := next;
    NextSlot(registerList, start, 15);
    if GetBit(registerList, 15) == 1 {
      SlotInBlock(p.mem.octets.Length, registerList, start, 15);
      var value, _ := p.ReadWord(address);
      AndWithZero(0xFFFF_FFFE);
      p.WriteRegister(15, And(Wrap(value), 0xFFFF_FFFE));
      address := Addr(address, 4);
    }
  }

  /** The STM transfer. */
  method StoreRegisters(p: Core, registerList: half, start: word) returns (address: word)
    requires p.Valid() && InBounds(p.mem.octets.Length, start, 4 * Count(registerList))
    modifies p.mem.octets
    ensures p.View() == old(p.View()).(
              mem := StmMem(old(p.mem.octets[..]), p.mem.isBigEndian, p.reg.regs[..], registerList, start, 16))
    ensures address == Addr(start, 4 * Count(registerList))
  {
    ghost var m := p.mem.octets[..];
    address := start;
    var i := 0;
    while i <= 15
      invariant 0 <= i <= 16
      invariant address == Slot(registerList, start, i)
      invariant p.mem.octets[..] == StmMem(m, p.mem.isBigEndian, p.reg.regs[..], registerList, start, i)
    {
      NextSlot(registerList, start, i);
      if GetBit(registerList, i) == 1 {
        SlotInBlock(|m|, registerList, start, i);
        var value := p.ReadRegister(i);
        var _ := p.WriteWord(address, value);
        address := Addr(address, 4);
      }
      i := i + 1;
    }
  }

  method ArmLoadStoreMultiple(p: Core, ins: word)
    requires p.Valid() && BlockInBounds(p.View(), ins)
    modifies p.reg.regs, p.mem.octets
    ensures p.View() == Execute(old(p.View()), ins)
  {
    var registerList := RegisterList(ins);
    var L, W, U, P := LBit(ins), WBit(ins), UBit(ins), PBit(ins);
    var base := p.ReadRegister(Rn(ins));
    var passes := TestCondition(p, Cond(ins));
    var start, end, rn := Addresses(P, W, U, base, registerList, passes);
    if passes {
      if L == 1 {
        var address := LoadRegisters(p, registerList, start);
        EndIsReached(P, U, base, Count(registerList));
        assert end == Addr(address, -4);
      } else {
        var address := StoreRegisters(p, registerList, start);
        EndIsReached(P, U, base, Count(registerList));
        assert end == Addr(address, -4);
      }
    }
  }
}
