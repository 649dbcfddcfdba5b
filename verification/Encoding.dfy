/** The fields of every instruction word as its digits, and words put together from their parts. */
module Encoding {
  import opened Bits
  import opened Util
  import opened Fields

  lemma Powers()
    ensures Pow2(1) == 2 && Pow2(7) == 0x80 && Pow2(20) == 0x10_0000 && Pow2(21) == 0x20_0000
    ensures Pow2(22) == 0x40_0000 && Pow2(23) == 0x80_0000 && Pow2(25) == 0x200_0000 && Pow2(28) == 0x1000_0000
  {
    FieldSizes();
    Pow2Add(4, 16);
    Pow2Add(5, 16);
    Pow2Add(12, 16);
    assert Pow2(22) == 2 * Pow2(21) && Pow2(23) == 2 * Pow2(22) && Pow2(25) == 2 * Pow2(24);
  }

  /** `x` with `above` over the field of the given place value and size, `f` in it, and `below` under it. */
  lemma FieldOf(x: word, h: nat, l: nat, place: nat, size: nat, above: nat, f: nat, below: nat)
    requires l <= h < 32 && h - l < 31 && place == Pow2(l) && size == Pow2(h - l + 1)
    requires f < size && below < place && x == place * (size * above + f) + below
    ensures GetBits(x, h, l) == f
  {
    GetBitsMacro(x, h, l);
    DivUnique(x, place, size * above + f, below);
    DivUnique(size * above + f, size, above, f);
  }

  lemma BitOf(x: word, i: nat, place: nat, above: nat, f: nat, below: nat)
    requires i < 32 && place == Pow2(i) && f <= 1 && below < place && x == place * (2 * above + f) + below
    ensures GetBit(x, i) == f
  {
    BitIsDigit(x, i);
    DivUnique(x, place, 2 * above + f, below);
    DivUnique(2 * above + f, 2, above, f);
  }

  /** The condition and the class. */
  lemma TopFields(x: word, cond: nat, group: nat, below: nat)
    requires cond < 16 && group < 8 && below < 0x200_0000
    requires x == 0x1000_0000 * cond + 0x200_0000 * group + below
    ensures Cond(x) == cond && Class(x) == group && GetBit(x, 25) == group % 2
  {
    FieldSizes();
    Powers();
    FieldOf(x, 31, 28, 0x1000_0000, 0x10, 0, cond, 0x200_0000 * group + below);
    FieldOf(x, 27, 25, 0x200_0000, 8, cond, group, below);
    BitOf(x, 25, 0x200_0000, 4 * cond + group / 2, group % 2, below);
  }

  /** Bits 24 to 20 of a load or store. */
  lemma ModeBits(x: word, above: nat, p: nat, u: nat, b: nat, w: nat, l: nat, below: nat)
    requires p < 2 && u < 2 && b < 2 && w < 2 && l < 2 && below < 0x10_0000
    requires x == 0x10_0000 * (0x20 * above + 0x10 * p + 8 * u + 4 * b + 2 * w + l) + below
    ensures PBit(x) == p && UBit(x) == u && BBit(x) == b && WBit(x) == w && LBit(x) == l
  {
    FieldSizes();
    Powers();
    var q := 2 * above + p;
    BitOf(x, 24, 0x100_0000, above, p, 0x10_0000 * (8 * u + 4 * b + 2 * w + l) + below);
    BitOf(x, 23, 0x80_0000, q, u, 0x10_0000 * (4 * b + 2 * w + l) + below);
    BitOf(x, 22, 0x40_0000, 2 * q + u, b, 0x10_0000 * (2 * w + l) + below);
    BitOf(x, 21, 0x20_0000, 4 * q + 2 * u + b, w, 0x10_0000 * l + below);
    BitOf(x, 20, 0x10_0000, 8 * q + 4 * u + 2 * b + w, l, below);
  }

  /** The two register numbers in the middle, and what lies below them. */
  lemma MiddleFields(x: word, above: nat, rn: nat, rd: nat, low: nat)
    requires rn < 16 && rd < 16 && low < 0x1000
    requires x == 0x10_0000 * above + 0x1_0000 * rn + 0x1000 * rd + low
    ensures Rn(x) == rn && Rd(x) == rd && Immediate12(x) == low
  {
    FieldSizes();
    Powers();
    FieldOf(x, 19, 16, 0x1_0000, 0x10, above, rn, 0x1000 * rd + low);
    FieldOf(x, 15, 12, 0x1000, 0x10, 0x10 * above + rn, rd, low);
    FieldOf(x, 11, 0, 1, 0x1000, 0x100 * above + 0x10 * rn + rd, low, 0);
  }

  lemma ListField(x: word, above: nat, list: half)
    requires x == 0x1_0000 * above + list
    ensures RegisterList(x) == list
  {
    FieldSizes();
    FieldOf(x, 15, 0, 1, 0x1_0000, above, list, 0);
  }

  /** A load or store word. */
  lemma TransferWord(x: word, cond: nat, group: nat, p: nat, u: nat, b: nat, w: nat, l: nat,
                     rn: nat, rd: nat, low: nat)
    requires cond < 16 && group < 8 && p < 2 && u < 2 && b < 2 && w < 2 && l < 2 && rn < 16 && rd < 16
    requires low < 0x1000
    requires x == 0x10_0000 * (0x100 * cond + 0x20 * group + 0x10 * p + 8 * u + 4 * b + 2 * w + l)
                  + 0x1_0000 * rn + 0x1000 * rd + low
    ensures Cond(x) == cond && Class(x) == group && PBit(x) == p && UBit(x) == u && BBit(x) == b && WBit(x) == w
    ensures LBit(x) == l && Rn(x) == rn && Rd(x) == rd && Immediate12(x) == low
  {
    var bits, below := 0x10 * p + 8 * u + 4 * b + 2 * w + l, 0x1_0000 * rn + 0x1000 * rd + low;
    TopFields(x, cond, group, 0x10_0000 * bits + below);
    ModeBits(x, 8 * cond + group, p, u, b, w, l, below);
    MiddleFields(x, 0x100 * cond + 0x20 * group + bits, rn, rd, low);
  }

  /** A data-processing word of class 0 whose operand is Rm shifted by an immediate. */
  lemma DataWord(x: word, cond: nat, opcode: nat, s: nat, rn: nat, rd: nat, amount: nat, kind: nat, rm: nat)
    requires cond < 16 && opcode < 16 && s < 2 && rn < 16 && rd < 16 && amount < 32 && kind < 4 && rm < 16
    requires x == 0x10_0000 * (0x100 * cond + 2 * opcode + s) + 0x1_0000 * rn + 0x1000 * rd
                  + 0x80 * amount + 0x20 * kind + rm
    ensures Class(x) == 0 && GetBit(x, 25) == 0 && GetBits(x, 24, 21) == opcode && GetBit(x, 20) == s
    ensures Rn(x) == rn && Rd(x) == rd && ShiftAmount(x) == amount && ShiftCode(x) == kind && GetBit(x, 4) == 0
    ensures Rm(x) == rm
  {
    FieldSizes();
    Powers();
    var low := 0x80 * amount + 0x20 * kind + rm;
    var below := 0x1_0000 * rn + 0x1000 * rd + low;
    TopFields(x, cond, 0, 0x10_0000 * (2 * opcode + s) + below);
    MiddleFields(x, 0x100 * cond + 2 * opcode + s, rn, rd, low);
    FieldOf(x, 24, 21, 0x20_0000, 0x10, 8 * cond, opcode, 0x10_0000 * s + below);
    BitOf(x, 20, 0x10_0000, 0x80 * cond + opcode, s, below);
    LowFields(x, 0x10 * (0x10 * (0x100 * cond + 2 * opcode + s) + rn) + rd, amount, kind, rm);
  }

  lemma LowFields(x: word, above: nat, amount: nat, kind: nat, rm: nat)
    requires amount < 32 && kind < 4 && rm < 16 && x == 0x1000 * above + 0x80 * amount + 0x20 * kind + rm
    ensures ShiftAmount(x) == amount && ShiftCode(x) == kind && GetBit(x, 4) == 0 && Rm(x) == rm
  {
    FieldSizes();
    Powers();
    FieldOf(x, 11, 7, 0x80, 0x20, above, amount, 0x20 * kind + rm);
    FieldOf(x, 6, 5, 0x20, 4, 0x20 * above + amount, kind, rm);
    BitOf(x, 4, 0x10, 0x80 * above + 4 * amount + kind, 0, rm);
    FieldOf(x, 3, 0, 1, 0x10, 0x100 * above + 8 * amount + 2 * kind, rm, 0);
  }

  // ----- Any word -----

  lemma FieldIs(x: word, h: nat, l: nat, place: nat, size: nat)
    requires l <= h < 32 && h - l < 31 && place == Pow2(l) && size == Pow2(h - l + 1)
    ensures GetBits(x, h, l) == x / place % size
  {
    GetBitsMacro(x, h, l);
  }

  lemma BitIs(x: word, i: nat, place: nat)
    requires i < 32 && place == Pow2(i)
    ensures GetBit(x, i) == x / place % 2
  {
    BitIsDigit(x, i);
  }

  /** The fields of any word are its digits, counted in bits from the lowest. */
  lemma FieldsAreDigits(x: word)
    ensures Cond(x) == x / 0x1000_0000 % 0x10 && Class(x) == x / 0x200_0000 % 8
    ensures Rn(x) == x / 0x1_0000 % 0x10 && Rd(x) == x / 0x1000 % 0x10 && Rs(x) == x / 0x100 % 0x10
    ensures Rm(x) == x % 0x10 && RegisterList(x) == x % 0x1_0000 && Immediate12(x) == x % 0x1000
    ensures ShiftCode(x) == x / 0x20 % 4 && ShiftAmount(x) == x / 0x80 % 0x20
  {
    FieldSizes();
    Powers();
    FieldIs(x, 31, 28, 0x1000_0000, 0x10);
    FieldIs(x, 27, 25, 0x200_0000, 8);
    FieldIs(x, 19, 16, 0x1_0000, 0x10);
    FieldIs(x, 15, 12, 0x1000, 0x10);
    FieldIs(x, 11, 8, 0x100, 0x10);
    FieldIs(x, 3, 0, 1, 0x10);
    FieldIs(x, 15, 0, 1, 0x1_0000);
    FieldIs(x, 11, 0, 1, 0x1000);
    FieldIs(x, 6, 5, 0x20, 4);
    FieldIs(x, 11, 7, 0x80, 0x20);
  }

  lemma BitsAreDigits(x: word)
    ensures PBit(x) == x / 0x100_0000 % 2 && UBit(x) == x / 0x80_0000 % 2 && BBit(x) == x / 0x40_0000 % 2
    ensures WBit(x) == x / 0x20_0000 % 2 && LBit(x) == x / 0x10_0000 % 2
    ensures GetBit(x, 25) == x / 0x200_0000 % 2 && GetBit(x, 7) == x / 0x80 % 2 && GetBit(x, 4) == x / 0x10 % 2
  {
    FieldSizes();
    Powers();
    BitIs(x, 24, 0x100_0000);
    BitIs(x, 23, 0x80_0000);
    BitIs(x, 22, 0x40_0000);
    BitIs(x, 21, 0x20_0000);
    BitIs(x, 20, 0x10_0000);
    BitIs(x, 25, 0x200_0000);
    BitIs(x, 7, 0x80);
    BitIs(x, 4, 0x10);
  }
}
