/** C's unsigned integers, the shift and bit functions of util.c and the field
    macros of util.h.  A `uint32_t` is an integer below 2^32; C defines `<<` on
    it as multiplication by a power of two modulo 2^32, and `>>` as division. */
module Bits {

  type word = x: int | 0 <= x < 0x1_0000_0000
  type half = x: int | 0 <= x < 0x1_0000
  type byte = x: int | 0 <= x < 0x100

  const ALL_ONES: word := 0xFFFF_FFFF

  // ----- Powers of two and Euclidean division -----

  function Pow2(n: nat): (r: nat)
    ensures r >= 1
  {
    if n == 0 then 1 else 2 * Pow2(n - 1)
  }

  lemma {:induction false} Pow2Add(a: nat, b: nat)
    ensures Pow2(a + b) == Pow2(a) * Pow2(b)
  {
    if a == 0 {
    } else {
      Pow2Add(a - 1, b);
      assert Pow2(a + b) == 2 * Pow2(a - 1 + b);
    }
  }

  lemma {:induction false} Pow2Monotone(a: nat, b: nat)
    requires a <= b
    ensures Pow2(a) <= Pow2(b)
    decreases b
  {
    if a < b {
      Pow2Monotone(a, b - 1);
    }
  }

  lemma MulLess(a: int, x: int, y: int)
    requires a >= 0 && x <= y
    ensures a * x <= a * y
  {
  }

  lemma DivUnique(x: int, d: int, q: int, r: int)
    requires d > 0 && x == d * q + r && 0 <= r < d
    ensures x / d == q && x % d == r
  {
    var q', r' := x / d, x % d;
    assert x == d * q' + r';
    assert d * (q - q') == r' - r;
    if q > q' {
      MulLess(d, 1, q - q');
      assert false;
    } else if q < q' {
      MulLess(d, 1, q' - q);
      assert false;
    }
  }

  lemma DivDiv(x: int, a: int, b: int)
    requires a > 0 && b > 0
    ensures a * b > 0 && (x / a) / b == x / (a * b)
    ensures x % (a * b) == a * ((x / a) % b) + x % a
  {
    var q, r := x / a, x % a;
    var q', r' := q / b, q % b;
    assert x == a * q + r && q == b * q' + r';
    assert a * q == a * (b * q') + a * r';
    assert a * (b * q') == (a * b) * q';
    MulLess(a, r', b - 1);
    assert a * (b - 1) == a * b - a;
    DivUnique(x, a * b, q', a * r' + r);
  }

  lemma Pow2At32()
    ensures Pow2(32) == 0x1_0000_0000
  {
    assert Pow2(8) == 0x100;
    Pow2Add(8, 8);
    Pow2Add(16, 16);
  }

  lemma HalfQuotient(x: int, s: nat)
    requires s > 0
    ensures x / Pow2(s) == (x / 2) / Pow2(s - 1)
    ensures x % Pow2(s) == 2 * ((x / 2) % Pow2(s - 1)) + x % 2
  {
    DivDiv(x, 2, Pow2(s - 1));
  }

  // ----- Doubling, halving and the low bits, one place at a time -----

  /** x * 2^s */
  function Doubled(x: nat, s: nat): (r: nat)
    ensures r >= x
    decreases s, x
  {
    if s == 0 then x else 2 * Doubled(x, s - 1)
  }

  /** x / 2^s, rounded down */
  function Halved(x: int, s: nat): (r: int)
    ensures x >= 0 ==> 0 <= r <= x
    decreases s, x
  {
    if s == 0 then x else Halved(x / 2, s - 1)
  }

  /** x % 2^s */
  function Low(x: nat, s: nat): (r: nat)
    ensures r < Pow2(s) && r <= x
    decreases s, x
  {
    if s == 0 then 0 else 2 * Low(x / 2, s - 1) + x % 2
  }

  lemma {:induction false} DoubledIsProduct(x: nat, s: nat)
    ensures Doubled(x, s) == x * Pow2(s)
    decreases s
  {
    if s > 0 {
      DoubledIsProduct(x, s - 1);
    }
  }

  lemma {:induction false} HalvedIsQuotient(x: int, s: nat)
    ensures Halved(x, s) == x / Pow2(s)
    decreases s
  {
    if s > 0 {
      HalfQuotient(x, s);
      HalvedIsQuotient(x / 2, s - 1);
    }
  }

  lemma {:induction false} LowIsRemainder(x: nat, s: nat)
    ensures Low(x, s) == x % Pow2(s)
    decreases s
  {
    if s > 0 {
      HalfQuotient(x, s);
      LowIsRemainder(x / 2, s - 1);
    }
  }

  lemma {:induction false} LowOfSmall(x: nat, s: nat)
    requires x < Pow2(s)
    ensures Low(x, s) == x
    decreases s
  {
    if s > 0 {
      LowOfSmall(x / 2, s - 1);
    }
  }

  lemma {:induction false} HalvedBelow(x: nat, s: nat, n: nat)
    requires x < Pow2(n) && s <= n
    ensures Halved(x, s) < Pow2(n - s)
    decreases s
  {
    if s > 0 {
      HalvedBelow(x / 2, s - 1, n - 1);
    }
  }

  lemma {:induction false} DoubledBelow(x: nat, s: nat, n: nat)
    requires x < Pow2(n)
    ensures Doubled(x, s) <= Pow2(n + s) - Pow2(s)
    decreases s
  {
    if s > 0 {
      DoubledBelow(x, s - 1, n);
    }
  }

  lemma {:induction false} LowOfDoubled(x: nat, k: nat, n: nat)
    requires k <= n
    ensures Low(Doubled(x, k), n) == Doubled(Low(x, n - k), k)
    decreases k
  {
    if k > 0 {
      LowOfDoubled(x, k - 1, n - 1);
      assert Doubled(x, k) / 2 == Doubled(x, k - 1);
    }
  }

  // ----- Single bits -----

  /** Bit `i` of `x`. */
  function Bit(x: nat, i: nat): (r: nat)
    ensures r <= 1
    decreases i, x
  {
    if i == 0 then x % 2 else Bit(x / 2, i - 1)
  }

  lemma {:induction false} BitIsDigit(x: nat, i: nat)
    ensures Bit(x, i) == x / Pow2(i) % 2
    decreases i
  {
    if i > 0 {
      HalfQuotient(x, i);
      BitIsDigit(x / 2, i - 1);
    }
  }

  /** A number below 2^n is determined by its n low bits. */
  lemma {:induction false} BitsDetermine(x: nat, y: nat, n: nat)
    requires x < Pow2(n) && y < Pow2(n)
    requires forall i: nat :: i < n ==> Bit(x, i) == Bit(y, i)
    ensures x == y
    decreases n
  {
    if n == 0 {
    } else {
      forall i: nat | i < n - 1
        ensures Bit(x / 2, i) == Bit(y / 2, i)
      {
        assert Bit(x, i + 1) == Bit(y, i + 1);
      }
      BitsDetermine(x / 2, y / 2, n - 1);
      assert Bit(x, 0) == Bit(y, 0);
    }
  }

  lemma {:induction false} BitAboveSize(x: nat, n: nat, i: nat)
    requires x < Pow2(n) && n <= i
    ensures Bit(x, i) == 0
    decreases i
  {
    if i > 0 {
      if n > 0 {
        BitAboveSize(x / 2, n - 1, i - 1);
      } else {
        BitAboveSize(x / 2, 0, i - 1);
      }
    }
  }

  lemma {:induction false} BitOfHalved(x: nat, s: nat, i: nat)
    ensures Bit(Halved(x, s), i) == Bit(x, i + s)
    decreases s
  {
    if s > 0 {
      BitOfHalved(x / 2, s - 1, i);
    }
  }

  lemma {:induction false} BitOfLow(x: nat, s: nat, i: nat)
    ensures Bit(Low(x, s), i) == if i < s then Bit(x, i) else 0
    decreases s
  {
    if s == 0 {
      BitAboveSize(0, 0, i);
    } else if i > 0 {
      BitOfLow(x / 2, s - 1, i - 1);
      assert Low(x, s) / 2 == Low(x / 2, s - 1);
    }
  }

  lemma {:induction false} BitOfDoubled(x: nat, s: nat, i: nat)
    ensures Bit(Doubled(x, s), i) == if i < s then 0 else Bit(x, i - s)
    decreases s
  {
    if s > 0 {
      BitOfDoubled(x, s - 1, if i == 0 then 0 else i - 1);
      assert Doubled(x, s) / 2 == Doubled(x, s - 1);
    }
  }

  lemma {:induction false} BitOfOnes(n: nat, i: nat)
    requires i < n
    ensures Bit(Pow2(n) - 1, i) == 1
    decreases n
  {
    if i > 0 {
      assert (Pow2(n) - 1) / 2 == Pow2(n - 1) - 1;
      BitOfOnes(n - 1, i - 1);
    }
  }

  // ----- Bitwise operators -----

  datatype Gate = AndGate | OrGate | XorGate

  function Apply(g: Gate, a: nat, b: nat): (r: nat)
    requires a <= 1 && b <= 1
    ensures r <= 1
  {
    match g
    case AndGate => if a == 1 && b == 1 then 1 else 0
    case OrGate => if a == 1 || b == 1 then 1 else 0
    case XorGate => if a != b then 1 else 0
  }

  /** The gate applied at every bit position. */
  function Combine(g: Gate, x: nat, y: nat): nat
    decreases x + y
  {
    if x == 0 && y == 0 then 0
    else 2 * Combine(g, x / 2, y / 2) + Apply(g, x % 2, y % 2)
  }

  lemma {:induction false} CombineBound(g: Gate, x: nat, y: nat, n: nat)
    requires x < Pow2(n) && y < Pow2(n)
    ensures Combine(g, x, y) < Pow2(n)
    decreases n
  {
    if n > 0 {
      CombineBound(g, x / 2, y / 2, n - 1);
    }
  }

  lemma CombineHalves(g: Gate, x: nat, y: nat)
    ensures Combine(g, x, y) / 2 == Combine(g, x / 2, y / 2)
    ensures Combine(g, x, y) % 2 == Apply(g, x % 2, y % 2)
  {
  }

  lemma {:induction false} BitOfCombine(g: Gate, x: nat, y: nat, i: nat)
    ensures Bit(Combine(g, x, y), i) == Apply(g, Bit(x, i), Bit(y, i))
    decreases i
  {
    CombineHalves(g, x, y);
    if i > 0 {
      BitOfCombine(g, x / 2, y / 2, i - 1);
    }
  }

  function And(x: word, y: word): word {
    Pow2At32();
    CombineBound(AndGate, x, y, 32);
    Combine(AndGate, x, y)
  }

  function Or(x: word, y: word): word {
    Pow2At32();
    CombineBound(OrGate, x, y, 32);
    Combine(OrGate, x, y)
  }

  function Xor(x: word, y: word): word {
    Pow2At32();
    CombineBound(XorGate, x, y, 32);
    Combine(XorGate, x, y)
  }

  function Not(x: word): word {
    0xFFFF_FFFF - x
  }

  lemma {:induction false} BitOfComplement(x: nat, n: nat, i: nat)
    requires x < Pow2(n) && i < n
    ensures Bit(Pow2(n) - 1 - x, i) == 1 - Bit(x, i)
    decreases n
  {
    if i > 0 {
      assert (Pow2(n) - 1 - x) / 2 == Pow2(n - 1) - 1 - x / 2;
      BitOfComplement(x / 2, n - 1, i - 1);
    }
  }

  lemma BitOfNot(x: word, i: nat)
    requires i < 32
    ensures Bit(Not(x), i) == 1 - Bit(x, i)
  {
    Pow2At32();
    BitOfComplement(x, 32, i);
  }

  // ----- C arithmetic on uint32_t -----

  /** Conversion of any integer value to uint32_t. */
  function Wrap(x: int): (r: word)
    ensures -0x1_0000_0000 <= x < 0 ==> r == x + 0x1_0000_0000
    ensures 0 <= x < 0x1_0000_0000 ==> r == x
    ensures 0x1_0000_0000 <= x < 0x2_0000_0000 ==> r == x - 0x1_0000_0000
  {
    x % 0x1_0000_0000
  }

  /** Wrapping early makes no difference to a later sum. */
  lemma WrapAdds(x: int, y: int)
    ensures Wrap(Wrap(x) + y) == Wrap(x + y)
  {
  }

  lemma WrapIsLow(x: nat)
    ensures Wrap(x) == Low(x, 32)
  {
    Pow2At32();
    LowIsRemainder(x, 32);
  }

  /** `x << s` */
  function Shl(x: word, s: nat): word {
    Wrap(Doubled(x, s))
  }

  /** `x >> s` */
  function Shr(x: word, s: nat): word {
    Halved(x, s)
  }

  /** The shifts are multiplication modulo 2^32 and division, as C defines them. */
  lemma ShiftMeaning(x: word, s: nat)
    ensures Shl(x, s) == Wrap(x * Pow2(s))
    ensures Shr(x, s) == x / Pow2(s)
  {
    DoubledIsProduct(x, s);
    HalvedIsQuotient(x, s);
  }

  lemma BitOfShl(x: word, s: nat, i: nat)
    requires i < 32
    ensures Bit(Shl(x, s), i) == if i < s then 0 else Bit(x, i - s)
  {
    WrapIsLow(Doubled(x, s));
    BitOfLow(Doubled(x, s), 32, i);
    BitOfDoubled(x, s, i);
  }

  lemma BitOfShr(x: word, s: nat, i: nat)
    ensures Bit(Shr(x, s), i) == Bit(x, i + s)
  {
    BitOfHalved(x, s, i);
  }
}
