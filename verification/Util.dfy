/** util.h and util.c: bit tests, bit fields, byte reversal and the four shifts,
    written with the operators the C uses and related to their arithmetic meaning. */
module Util {
  import opened Bits

  // ----- Masks -----

  lemma {:induction false} OrWithZero(x: nat)
    ensures Combine(OrGate, x, 0) == x
    ensures Combine(OrGate, 0, x) == x
  {
    if x > 0 {
      OrWithZero(x / 2);
    }
  }

  lemma {:induction false} OrWithItself(x: nat)
    ensures Combine(OrGate, x, x) == x
  {
    if x > 0 {
      OrWithItself(x / 2);
    }
  }

  lemma {:induction false} AndWithItself(x: nat)
    ensures Combine(AndGate, x, x) == x
  {
    if x > 0 {
      AndWithItself(x / 2);
    }
  }

  lemma {:induction false} XorWithZero(x: nat)
    ensures Combine(XorGate, x, 0) == x
  {
    if x > 0 {
      XorWithZero(x / 2);
    }
  }

  /** Or of two numbers that share no bit position is their sum. */
  lemma {:induction false} OrDisjoint(high: nat, low: nat, k: nat)
    requires low < Pow2(k)
    ensures Combine(OrGate, Doubled(high, k), low) == Doubled(high, k) + low
    ensures Combine(OrGate, low, Doubled(high, k)) == Doubled(high, k) + low
    decreases k
  {
    if k == 0 {
      OrWithZero(high);
    } else {
      var h := Doubled(high, k - 1);
      assert Doubled(high, k) / 2 == h && Doubled(high, k) % 2 == 0;
      OrDisjoint(high, low / 2, k - 1);
      CombineStep(OrGate, 2 * h, low);
      CombineStep(OrGate, low, 2 * h);
    }
  }

  lemma CombineStep(g: Gate, x: nat, y: nat)
    ensures Combine(g, x, y) == 2 * Combine(g, x / 2, y / 2) + Apply(g, x % 2, y % 2)
  {
  }

  lemma OnesHalve(k: nat)
    requires k > 0
    ensures (Pow2(k) - 1) / 2 == Pow2(k - 1) - 1 && (Pow2(k) - 1) % 2 == 1
  {
  }

  lemma AndMaskStep(x: nat, k: nat)
    requires k > 0
    ensures Combine(AndGate, x, Pow2(k) - 1) == 2 * Combine(AndGate, x / 2, Pow2(k - 1) - 1) + x % 2
  {
    OnesHalve(k);
    var mask := Pow2(k) - 1;
    CombineStep(AndGate, x, mask);
  }

  lemma {:induction false} AndMask(x: nat, k: nat)
    ensures Combine(AndGate, x, Pow2(k) - 1) == Low(x, k)
    decreases k
  {
    if k == 0 {
      AndWithZero(x);
    } else {
      AndMaskStep(x, k);
      AndMask(x / 2, k - 1);
    }
  }

  lemma {:induction false} AndWithZero(x: nat)
    ensures Combine(AndGate, x, 0) == 0 == Combine(AndGate, 0, x)
  {
    if x > 0 {
      AndWithZero(x / 2);
    }
  }

  lemma ClearLowBit(x: word)
    ensures And(x, 0xFFFF_FFFE) == x - x % 2
  {
    Pow2At32();
    AndMask(x / 2, 31);
    LowOfSmall(x / 2, 31);
    CombineStep(AndGate, x, 0xFFFF_FFFE);
  }

  /** `(~0) << k`, and its complement.  (`(~0) >> k` on a negative int keeps
      every bit set, so the `>>` of the macros has no effect of its own.) */
  lemma {:induction false} OnesShifted(k: nat)
    requires k <= 32
    ensures Shl(ALL_ONES, k) == 0x1_0000_0000 - Pow2(k)
    ensures Not(Shl(ALL_ONES, k)) == Pow2(k) - 1
  {
    if k > 0 {
      OnesShifted(k - 1);
      Pow2At32();
      Pow2Monotone(k, 32);
      WrapTwice(Doubled(ALL_ONES, k - 1));
    }
  }

  lemma WrapTwice(x: int)
    ensures Wrap(2 * x) == Wrap(2 * Wrap(x) as int)
  {
    WrapAdds(x, x);
    WrapAdds(x, Wrap(x));
  }

  lemma AlignedAfterWrap(x: int)
    requires x % 4 == 0
    ensures Wrap(x) % 4 == 0
  {
  }

  // ----- get_bit, get_bits, set_bits -----

  /** `get_bit(x, i)`: see GetBitMacro. */
  function GetBit(x: word, i: nat): (r: nat)
    requires i < 32
    ensures r <= 1
  {
    Bit(x, i)
  }

  /** `get_bits(x, h, l)`: see GetBitsMacro. */
  function GetBits(x: word, h: nat, l: nat): (r: word)
    requires l <= h < 32
    ensures r < Pow2(h - l + 1)
  {
    Low(Halved(x, l), h - l + 1)
  }

  /** The macro's expression gives the bit. */
  lemma GetBitMacro(x: word, i: nat)
    requires i < 32
    ensures And(Shr(x, i), 1) == GetBit(x, i)
  {
    BitOfShr(x, i, 0);
    AndMask(Shr(x, i), 1);
  }

  /** The macro's expression gives the field, and the field is digits l to h of the word. */
  lemma GetBitsMacro(x: word, h: nat, l: nat)
    requires l <= h < 32 && h - l < 31
    ensures And(Shr(x, l), Not(Shl(ALL_ONES, h - l + 1))) == GetBits(x, h, l)
    ensures GetBits(x, h, l) == x / Pow2(l) % Pow2(h - l + 1)
  {
    OnesShifted(h - l + 1);
    AndMask(Shr(x, l), h - l + 1);
    HalvedIsQuotient(x, l);
    LowIsRemainder(Halved(x, l), h - l + 1);
  }

  /** `set_bits(x, h, l, bits)` */
  function SetBits(x: word, h: nat, l: nat, bits: word): word
    requires l <= h < 31
  {
    Or(Or(And(x, Not(Shl(ALL_ONES, l))), And(x, Shl(ALL_ONES, h + 1))), Shl(bits, l))
  }

  lemma BitOfGetBits(x: word, h: nat, l: nat, i: nat)
    requires l <= h < 32
    ensures Bit(GetBits(x, h, l), i) == if i <= h - l then Bit(x, i + l) else 0
  {
    BitOfLow(Halved(x, l), h - l + 1, i);
    BitOfHalved(x, l, i);
  }

  lemma BitOfOnesShifted(k: nat, i: nat)
    requires i < 32
    ensures Bit(Shl(ALL_ONES, k), i) == if i < k then 0 else 1
  {
    BitOfShl(ALL_ONES, k, i);
    Pow2At32();
    if i >= k {
      BitOfOnes(32, i - k);
    }
  }

  lemma BitOfSetBits(x: word, h: nat, l: nat, bits: word, i: nat)
    requires l <= h < 31 && i < 32
    requires bits < Pow2(h - l + 1)
    ensures Bit(SetBits(x, h, l, bits), i) == if l <= i <= h then Bit(bits, i - l) else Bit(x, i)
  {
    var low, high := And(x, Not(Shl(ALL_ONES, l))), And(x, Shl(ALL_ONES, h + 1));
    BitOfCombine(AndGate, x, Not(Shl(ALL_ONES, l)), i);
    BitOfCombine(AndGate, x, Shl(ALL_ONES, h + 1), i);
    BitOfNot(Shl(ALL_ONES, l), i);
    BitOfOnesShifted(l, i);
    BitOfOnesShifted(h + 1, i);
    BitOfShl(bits, l, i);
    BitOfCombine(OrGate, low, high, i);
    BitOfCombine(OrGate, Or(low, high), Shl(bits, l), i);
    if i > h {
      BitAboveSize(bits, h - l + 1, i - l);
    }
  }

  lemma WordsEqual(x: word, y: word)
    requires forall i: nat :: i < 32 ==> Bit(x, i) == Bit(y, i)
    ensures x == y
  {
    Pow2At32();
    BitsDetermine(x, y, 32);
  }

  /** A field reads back what was put into it; no bit outside it changes. */
  lemma FieldRoundTrip(x: word, h: nat, l: nat, bits: word)
    requires l <= h < 31 && bits < Pow2(h - l + 1)
    ensures GetBits(SetBits(x, h, l, bits), h, l) == bits
    ensures forall i: nat :: i < 32 && !(l <= i <= h) ==> Bit(SetBits(x, h, l, bits), i) == Bit(x, i)
  {
    var y := SetBits(x, h, l, bits);
    forall i: nat | i < 32
      ensures Bit(GetBits(y, h, l), i) == Bit(bits, i)
    {
      BitOfGetBits(y, h, l, i);
      if i <= h - l {
        BitOfSetBits(x, h, l, bits, i + l);
      } else {
        BitAboveSize(bits, h - l + 1, i);
      }
    }
    WordsEqual(GetBits(y, h, l), bits);
    forall i: nat | i < 32 && !(l <= i <= h)
      ensures Bit(y, i) == Bit(x, i)
    {
      BitOfSetBits(x, h, l, bits, i);
    }
  }

  /** Updates of fields that do not overlap commute, and neither disturbs the other. */
  lemma DisjointFieldsCommute(x: word, h: nat, l: nat, a: word, h': nat, l': nat, b: word)
    requires l <= h < 31 && a < Pow2(h - l + 1)
    requires l' <= h' < 31 && b < Pow2(h' - l' + 1)
    requires h < l' || h' < l
    ensures SetBits(SetBits(x, h, l, a), h', l', b) == SetBits(SetBits(x, h', l', b), h, l, a)
    ensures GetBits(SetBits(SetBits(x, h, l, a), h', l', b), h, l) == a
  {
    var y, z := SetBits(x, h, l, a), SetBits(x, h', l', b);
    forall i: nat | i < 32
      ensures Bit(SetBits(y, h', l', b), i) == Bit(SetBits(z, h, l, a), i)
    {
      BitOfSetBits(x, h, l, a, i);
      BitOfSetBits(x, h', l', b, i);
      BitOfSetBits(y, h', l', b, i);
      BitOfSetBits(z, h, l, a, i);
    }
    WordsEqual(SetBits(y, h', l', b), SetBits(z, h, l, a));
    FieldRoundTrip(z, h, l, a);
  }

  // ----- reverse_2, reverse_4 -----

  function Reverse2(x: half): word {
    Or(Shl(And(x, 0xFF), 8), And(Shr(x, 8), 0xFF))
  }

  function Reverse4(x: word): word {
    Or(Or(Or(Shl(And(x, 0xFF), 24), Shl(And(Shr(x, 8), 0xFF), 16)), Shl(And(Shr(x, 16), 0xFF), 8)),
       And(Shr(x, 24), 0xFF))
  }

  // ----- The shift functions of util.c -----

  function Lsl(value: word, shift: nat): word {
    Shl(value, shift)
  }

  function Lsr(value: word, shift: nat): word {
    Shr(value, shift)
  }

  function Asr(value: word, shift: nat): word
    requires 0 < shift < 32
  {
    Or(Shr(value, shift), if GetBit(value, 31) != 0 then Shl(ALL_ONES, 32 - shift) else 0)
  }

  /** For rotation 0 the C shifts by 32, which it leaves undefined; here that shift gives 0. */
  function Ror(value: word, rotation: nat): word
    requires rotation < 32
  {
    Or(Shr(value, rotation), Shl(value, 32 - rotation))
  }

  /** RRX: the carry above the word shifted right by one. */
  lemma RrxMeaning(c: nat, rm: word)
    requires c <= 1
    ensures Or(Shl(c, 31), Shr(rm, 1)) == (c * 0x1_0000_0000 + rm) / 2
  {
    Pow2At32();
    assert Halved(rm, 1) == rm / 2;
    DoubledIsProduct(c, 31);
    OrDisjoint(c, rm / 2, 31);
  }

  /** Two's complement reading of a word. */
  function Signed(x: word): int {
    if x >= 0x8000_0000 then x - 0x1_0000_0000 else x
  }

  lemma TopBit(x: word)
    ensures Bit(x, 31) == (if x >= 0x8000_0000 then 1 else 0)
    ensures GetBit(x, 31) == Bit(x, 31)
  {
    Pow2At32();
    BitIsDigit(x, 31);
  }

  lemma {:induction false} HalvedPastSign(y: int, n: nat, k: nat)
    requires 0 - Pow2(n) <= y < Pow2(n) && n <= k
    ensures Halved(y, k) == if y < 0 then -1 else 0
    decreases k
  {
    if k > 0 {
      assert n > 0 ==> Pow2(n) == 2 * Pow2(n - 1);
      HalvedPastSign(y / 2, if n > 0 then n - 1 else 0, k - 1);
    }
  }

  /** Past the word's end, an arithmetic shift has only copies of the sign bit. */
  lemma SignFill(x: word, k: nat)
    requires k >= 31
    ensures Halved(Signed(x), k) == if Bit(x, 31) == 1 then -1 else 0
  {
    Pow2At32();
    TopBit(x);
    HalvedPastSign(Signed(x), 31, k);
  }

  lemma {:induction false} HalvedMinus(x: int, n: nat, s: nat)
    requires s <= n
    ensures Halved(x - Pow2(n), s) == Halved(x, s) - Pow2(n - s)
    decreases s
  {
    if s > 0 {
      assert (x - Pow2(n)) / 2 == x / 2 - Pow2(n - 1);
      HalvedMinus(x / 2, n - 1, s - 1);
    }
  }

  lemma FillWithOnes(q: word, s: nat)
    requires 0 < s < 32 && q < Pow2(32 - s)
    ensures Or(q, Shl(ALL_ONES, 32 - s)) == 0x1_0000_0000 - Pow2(32 - s) + q
  {
    var ones := Doubled(Pow2(s) - 1, 32 - s);
    assert Shl(ALL_ONES, 32 - s) == ones by {
      OnesShifted(32 - s);
      OnesAsMultiple(s, 32 - s);
      Pow2At32();
    }
    OrDisjoint(Pow2(s) - 1, q, 32 - s);
    OnesShifted(32 - s);
  }

  lemma {:induction false} OnesAsMultiple(s: nat, k: nat)
    ensures Doubled(Pow2(s) - 1, k) == Pow2(s + k) - Pow2(k)
    decreases k
  {
    if k > 0 {
      OnesAsMultiple(s, k - 1);
    }
  }

  lemma AsrOfNegative(x: word, s: nat)
    requires 0 < s < 32
    ensures Or(Shr(x, s), Shl(ALL_ONES, 32 - s)) == Wrap(Halved(x - 0x1_0000_0000, s))
  {
    Pow2At32();
    HalvedBelow(x, s, 32);
    HalvedMinus(x, 32, s);
    FillWithOnes(Halved(x, s), s);
    Pow2Monotone(32 - s, 32);
    WrapOfNegative(Halved(x, s) - Pow2(32 - s));
  }

  lemma WrapOfNegative(y: int)
    requires -0x1_0000_0000 <= y < 0
    ensures Wrap(y) == y + 0x1_0000_0000
  {
  }

  /** asr is the floor of the signed value divided by 2^s, as a word. */
  lemma AsrMeaning(x: word, s: nat)
    requires 0 < s < 32
    ensures Asr(x, s) == Wrap(Halved(Signed(x), s))
    ensures Halved(Signed(x), s) == Signed(x) / Pow2(s)
  {
    HalvedIsQuotient(Signed(x), s);
    TopBit(x);
    if x >= 0x8000_0000 {
      AsrOfNegative(x, s);
    } else {
      OrWithZero(Halved(x, s));
      assert Asr(x, s) == Halved(x, s);
    }
  }

  /** ror moves the low bits of the word to its top. */
  lemma RorSplit(x: word, s: nat)
    requires s <= 32
    ensures Or(Shr(x, s), Shl(x, 32 - s)) == Halved(x, s) + Doubled(Low(x, s), 32 - s)
    ensures Halved(x, s) < Pow2(32 - s)
  {
    Pow2At32();
    HalvedBelow(x, s, 32);
    WrapIsLow(Doubled(x, 32 - s));
    LowOfDoubled(x, 32 - s, 32);
    OrDisjoint(Low(x, s), Halved(x, s), 32 - s);
  }

  lemma RorMeaning(x: word, s: nat)
    requires s < 32
    ensures Ror(x, s) == x / Pow2(s) + x % Pow2(s) * Pow2(32 - s)
  {
    RorSplit(x, s);
    HalvedIsQuotient(x, s);
    LowIsRemainder(x, s);
    DoubledIsProduct(Low(x, s), 32 - s);
  }

  lemma BitOfRor(x: word, s: nat, i: nat)
    requires s < 32 && i < 32
    ensures Bit(Ror(x, s), i) == Bit(x, if i + s < 32 then i + s else i + s - 32)
  {
    var low, high := Shr(x, s), Shl(x, 32 - s);
    assert Ror(x, s) == Combine(OrGate, low, high);
    BitOfCombine(OrGate, low, high, i);
    BitOfShr(x, s, i);
    BitOfShl(x, 32 - s, i);
    if i + s >= 32 {
      Pow2At32();
      BitAboveSize(x, 32, i + s);
    }
  }

  // ----- Rotation algebra -----

  /** (a + b) % 32 for rotations a and b. */
  function Turn(a: nat, b: nat): (r: nat)
    requires a < 32 && b < 32
    ensures r < 32
  {
    if a + b < 32 then a + b else a + b - 32
  }

  lemma RotationsCompose(x: word, a: nat, b: nat)
    requires 0 < a < 32 && 0 < b < 32
    ensures Ror(Ror(x, a), b) == Ror(x, Turn(a, b))
  {
    var y, c := Ror(x, a), Turn(a, b);
    forall i: nat | i < 32
      ensures Bit(Ror(y, b), i) == Bit(Ror(x, c), i)
    {
      BitOfRor(y, b, i);
      BitOfRor(x, a, if i + b < 32 then i + b else i + b - 32);
      BitOfRor(x, c, i);
    }
    WordsEqual(Ror(y, b), Ror(x, c));
  }

  /** Whatever the undefined `value << 32` gives, 0 or the value itself, rotation 0 is the identity. */
  lemma RotationByZero(x: word)
    ensures Ror(x, 0) == x && Or(Shr(x, 0), x) == x
  {
    RorSplit(x, 0);
    DoubledZero(32);
    OrWithItself(x);
  }

  lemma {:induction false} DoubledZero(k: nat)
    ensures Doubled(0, k) == 0
  {
    if k > 0 {
      DoubledZero(k - 1);
    }
  }

  lemma RotationInverse(x: word, a: nat)
    requires 0 < a < 32
    ensures Ror(Ror(x, a), 32 - a) == x
  {
    RotationsCompose(x, a, 32 - a);
    RotationByZero(x);
  }

  lemma RotationCancels(x: word, y: word, a: nat)
    requires 0 < a < 32 && Ror(x, a) == Ror(y, a)
    ensures x == y
  {
    RotationInverse(x, a);
    RotationInverse(y, a);
  }

  /** Number of set bits. */
  function Popcount(x: nat): nat {
    if x == 0 then 0 else x % 2 + Popcount(x / 2)
  }

  lemma {:induction false} PopcountSplit(x: nat, s: nat)
    ensures Popcount(x) == Popcount(Low(x, s)) + Popcount(Halved(x, s))
    decreases s
  {
    if s > 0 {
      PopcountSplit(x / 2, s - 1);
      assert Low(x, s) / 2 == Low(x / 2, s - 1) && Low(x, s) % 2 == x % 2;
      PopcountStep(x);
      PopcountStep(Low(x, s));
    }
  }

  lemma PopcountStep(x: nat)
    ensures Popcount(x) == x % 2 + Popcount(x / 2)
  {
  }

  lemma {:induction false} PopcountJoin(high: nat, low: nat, k: nat)
    requires low < Pow2(k)
    ensures Popcount(low + Doubled(high, k)) == Popcount(low) + Popcount(high)
    decreases k
  {
    if k > 0 {
      var y := low + Doubled(high, k);
      PopcountJoin(high, low / 2, k - 1);
      assert y / 2 == low / 2 + Doubled(high, k - 1) && y % 2 == low % 2;
      PopcountStep(y);
      PopcountStep(low);
    }
  }

  lemma RotationKeepsPopcount(x: word, s: nat)
    requires 0 < s < 32
    ensures Popcount(Ror(x, s)) == Popcount(x)
  {
    RorSplit(x, s);
    PopcountJoin(Low(x, s), Halved(x, s), 32 - s);
    PopcountSplit(x, s);
  }

  // ----- set_bit, clr_bit -----

  function SetBit(value: word, position: nat): word
    requires position < 32
  {
    Or(value, Shl(1, position))
  }

  function ClrBit(value: word, position: nat): word
    requires position < 32
  {
    And(value, Not(Shl(1, position)))
  }

  lemma BitOfOneShifted(p: nat, i: nat)
    requires p < 32 && i < 32
    ensures Bit(Shl(1, p), i) == if i == p then 1 else 0
  {
    BitOfShl(1, p, i);
    if i > p {
      assert 1 < Pow2(1);
      BitAboveSize(1, 1, i - p);
    }
  }

  lemma BitOfSetBit(x: word, p: nat, i: nat)
    requires p < 32 && i < 32
    ensures Bit(SetBit(x, p), i) == if i == p then 1 else Bit(x, i)
    ensures Bit(ClrBit(x, p), i) == if i == p then 0 else Bit(x, i)
  {
    BitOfOneShifted(p, i);
    BitOfCombine(OrGate, x, Shl(1, p), i);
    BitOfNot(Shl(1, p), i);
    BitOfCombine(AndGate, x, Not(Shl(1, p)), i);
  }
}
