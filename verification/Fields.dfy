/** The fields the decoders cut out of an instruction word. */
module Fields {
  import opened Bits
  import opened Util

  lemma FieldSizes()
    ensures Pow2(2) == 4 && Pow2(3) == 8 && Pow2(4) == 16 && Pow2(5) == 32
    ensures Pow2(8) == 0x100 && Pow2(12) == 0x1000 && Pow2(16) == 0x1_0000 && Pow2(24) == 0x100_0000
  {
    Pow2Add(8, 8);
    Pow2Add(16, 8);
  }

  function Cond(ins: word): (r: byte)
    ensures r < 16
  {
    FieldSizes();
    GetBits(ins, 31, 28)
  }

  function Rn(ins: word): (r: nat)
    ensures r < 16
  {
    FieldSizes();
    GetBits(ins, 19, 16)
  }

  function Rd(ins: word): (r: nat)
    ensures r < 16
  {
    FieldSizes();
    GetBits(ins, 15, 12)
  }

  function Rs(ins: word): (r: nat)
    ensures r < 16
  {
    FieldSizes();
    GetBits(ins, 11, 8)
  }

  function Rm(ins: word): (r: nat)
    ensures r < 16
  {
    FieldSizes();
    GetBits(ins, 3, 0)
  }

  function RegisterList(ins: word): (r: half) {
    FieldSizes();
    GetBits(ins, 15, 0)
  }

  function Immediate12(ins: word): (r: nat)
    ensures r < 0x1000
  {
    FieldSizes();
    GetBits(ins, 11, 0)
  }

  function ShiftCode(ins: word): (r: nat)
    ensures r < 4
  {
    FieldSizes();
    GetBits(ins, 6, 5)
  }

  function ShiftAmount(ins: word): (r: nat)
    ensures r < 32
  {
    FieldSizes();
    GetBits(ins, 11, 7)
  }

  // Shift codes, as in arm_constants.h.
  const LSL := 0
  const LSR := 1
  const ASR := 2
  const ROR := 3

  function Class(ins: word): (r: nat)
    ensures r < 8
  {
    FieldSizes();
    GetBits(ins, 27, 25)
  }

  // Single bits of load/store words.
  function LBit(ins: word): (r: nat) ensures r <= 1 { GetBit(ins, 20) }
  function WBit(ins: word): (r: nat) ensures r <= 1 { GetBit(ins, 21) }
  function BBit(ins: word): (r: nat) ensures r <= 1 { GetBit(ins, 22) }
  function UBit(ins: word): (r: nat) ensures r <= 1 { GetBit(ins, 23) }
  function PBit(ins: word): (r: nat) ensures r <= 1 { GetBit(ins, 24) }
}
