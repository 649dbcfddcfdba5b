/** arm_core.c: the processor state, its register reads (the PC rule) and its memory
    accesses, without cycle counting and traces. */
module ArmCore {
  import opened Bits
  import opened Util
  import opened Memory
  import opened Registers

  // ----- The state as a value -----

  datatype State = State(regs: seq<word>, mode: byte, mem: seq<byte>, be: bool)
  {
    predicate Valid() {
      |regs| == SLOTS && Known(mode)
    }
  }

  /** The PC is read 4 further on, with bit 1 cleared. */
  function PcRead(pc: word): word {
    And(Wrap(pc + 4), 0xFFFF_FFFD)
  }

  function ReadReg(regs: seq<word>, r: nat): word
    requires |regs| == SLOTS && r < 16
  {
    if r == PC then PcRead(regs[PC]) else regs[r]
  }

  function ReadAnyOutcome(s: State, r: byte): Outcome<word>
    requires s.Valid()
  {
    if r < 16 then Returned(ReadReg(s.regs, r)) else ReadOutcome(Regs(s.regs, s.mode), r)
  }

  /** The CPSR bit that selects the Thumb state. */
  const T := 5

  /** A CPSR bit. */
  function Flag(regs: seq<word>, i: nat): (f: nat)
    requires |regs| == SLOTS && i < 32
    ensures f <= 1
  {
    Bit(regs[CPSR], i)
  }

  // ----- The state as an object -----

  class Core {
    const reg: RegisterFile
    const mem: Mem

    ghost predicate Valid()
      reads reg
    {
      reg.Valid() && Known(reg.mode) && (reg.regs as object) != mem.octets
    }

    ghost function View(): State
      reads reg, reg.regs, mem.octets
    {
      State(reg.regs[..], reg.mode, mem.octets[..], mem.isBigEndian)
    }

    /** arm_create, on a memory the caller made: registers_create, then the RESET exception. */
    constructor (mem: Mem)
      ensures Valid() && this.mem == mem && fresh(reg) && fresh(reg.regs)
      ensures reg.mode == USR && reg.regs[CPSR] == 0x1d3 && reg.regs[PC] == 0
      ensures mem.octets[..] == old(mem.octets[..])
    {
      this.mem := mem;
      this.reg := new RegisterFile();
      new;
      reg.WriteCpsr(0x1d3);
      var _ := reg.WriteUsrRegister(15, 0);
    }

    /** arm_read_register, for any register number. */
    method ReadAny(r: byte) returns (o: Outcome<word>)
      requires Valid()
      ensures o == ReadAnyOutcome(View(), r)
    {
      o := reg.ReadRegister(r);
      if o.Returned? && r == 15 {
        var value := Wrap(o.value + 4);
        o := Returned(And(value, 0xFFFF_FFFD));
      }
    }

    /** arm_read_register, for the numbers every mode admits. */
    method ReadRegister(r: nat) returns (value: word)
      requires Valid() && r < 16
      ensures value == ReadReg(reg.regs[..], r)
    {
      var o := ReadAny(r);
      value := o.value;
    }

    method WriteRegister(r: nat, value: word)
      requires Valid() && r < 16
      modifies reg.regs
      ensures View() == old(View()).(regs := old(reg.regs[..])[r := value])
    {
      var _ := reg.WriteRegister(r, value);
    }

    method ReadCpsr() returns (value: word)
      requires Valid()
      ensures value == reg.regs[CPSR]
    {
      value := reg.ReadCpsr();
    }

    method WriteCpsr(value: word)
      requires Valid()
      modifies reg.regs
      ensures View() == old(View()).(regs := old(reg.regs[..])[CPSR := value])
    {
      reg.WriteCpsr(value);
    }

    /** get_flag_N, get_flag_Z, get_flag_C and get_flag_V, for i = 31, 30, 29 and 28. */
    method GetFlag(i: nat) returns (f: nat)
      requires Valid() && i < 32
      ensures f == Flag(reg.regs[..], i)
    {
      var cpsr := ReadCpsr();
      f := GetBit(cpsr, i);
    }

    method ReadByte(address: word) returns (rc: int, value: byte)
      requires InBounds(mem.octets.Length, address, 1)
      ensures rc == 0 && value == Load(mem.octets[..], mem.isBigEndian, W8, address)
    {
      rc, value := mem.ReadByte(address);
    }

    method ReadWord(address: word) returns (rc: int, value: word)
      requires InBounds(mem.octets.Length, address, 4)
      ensures rc == 0 && value == Load(mem.octets[..], mem.isBigEndian, W32, address)
    {
      rc, value := mem.ReadWord(address);
    }

    method WriteByte(address: word, value: byte) returns (rc: int)
      requires Valid() && InBounds(mem.octets.Length, address, 1)
      modifies mem.octets
      ensures rc == 0
      ensures View() == old(View()).(mem := Store(old(mem.octets[..]), mem.isBigEndian, W8, address, value))
    {
      rc := mem.WriteByte(address, value);
    }

    method WriteWord(address: word, value: word) returns (rc: int)
      requires Valid() && InBounds(mem.octets.Length, address, 4)
      modifies mem.octets
      ensures rc == 0
      ensures View() == old(View()).(mem := Store(old(mem.octets[..]), mem.isBigEndian, W32, address, value))
    {
      rc := mem.WriteWord(address, value);
    }

    /** arm_fetch: the word the PC stands at; the PC then stands at the next one. */
    method Fetch() returns (rc: int, instruction: word)
      requires Valid() && InBounds(mem.octets.Length, FetchAddress(reg.regs[PC]), 4)
      modifies reg.regs
      ensures rc == 0 && instruction == Load(mem.octets[..], mem.isBigEndian, W32, FetchAddress(old(reg.regs[PC])))
      ensures View() == old(View()).(regs := old(reg.regs[..])[PC := Wrap(FetchAddress(old(reg.regs[PC])) + 4)])
    {
      var pc: int := ReadRegister(15);
      var address: int := Wrap(pc - 4);
      rc, instruction := ReadWord(address);
      WriteRegister(15, Wrap(address + 4));
    }
  }

  function FetchAddress(pc: word): word {
    Wrap(PcRead(pc) - 4)
  }
}
