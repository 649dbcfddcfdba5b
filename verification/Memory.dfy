/** memory.c: a byte array with byte, half-word and word accesses in either
    byte order, and the plain byte map those accesses implement. */
module Memory {
  import opened Bits
  import opened Util

  // ----- Accesses as functions of the bytes -----

  datatype Width = W8 | W16 | W32
  {
    function Bytes(): nat {
      match this
      case W8 => 1
      case W16 => 2
      case W32 => 4
    }
  }

  /** `a + k` in uint32_t. */
  function Addr(a: word, k: int): word {
    Wrap(a + k)
  }

  /** How far `x` lies after `a`, going around the 32-bit address space. */
  function Offset(a: word, x: int): nat {
    Wrap(x - a)
  }

  /** The n bytes from address `a` on (addresses wrap) include `x`. */
  predicate Covers(a: word, n: nat, x: nat) {
    x < 0x1_0000_0000 && Offset(a, x) < n
  }

  /** Every byte of the block lies inside a memory of the given size. */
  predicate InBounds(size: nat, a: word, n: nat) {
    forall k: nat :: k < n ==> Addr(a, k) < size
  }

  /** Byte `p` of a value, counted from the least significant one. */
  function Byte(v: nat, p: nat): byte {
    if p == 0 then v % 0x100
    else if p == 1 then v / 0x100 % 0x100
    else if p == 2 then v / 0x1_0000 % 0x100
    else v / 0x100_0000 % 0x100
  }

  /** The byte of a `w`-wide value found `k` bytes after its address. */
  function ByteAt(be: bool, w: Width, v: word, k: nat): byte
    requires k < w.Bytes()
  {
    Byte(v, if be then w.Bytes() - 1 - k else k)
  }

  function Store(m: seq<byte>, be: bool, w: Width, a: word, v: word): (m': seq<byte>)
    ensures |m'| == |m|
  {
    seq(|m|, x requires 0 <= x < |m| => if Covers(a, w.Bytes(), x) then ByteAt(be, w, v, Offset(a, x)) else m[x])
  }

  /** Values put together from bytes, the most significant first. */
  function Join2(b1: byte, b0: byte): half {
    b1 as int * 0x100 + b0 as int
  }

  function Join4(b3: byte, b2: byte, b1: byte, b0: byte): word {
    b3 as int * 0x100_0000 + b2 as int * 0x1_0000 + b1 as int * 0x100 + b0 as int
  }

  /** The value whose bytes, in address order, are given by `f`. */
  function Assemble(be: bool, w: Width, f: nat -> byte): word {
    match w
    case W8 => f(0)
    case W16 => if be then Join2(f(0), f(1)) else Join2(f(1), f(0))
    case W32 => if be then Join4(f(0), f(1), f(2), f(3)) else Join4(f(3), f(2), f(1), f(0))
  }

  function Load(m: seq<byte>, be: bool, w: Width, a: word): word
    requires InBounds(|m|, a, w.Bytes())
  {
    Assemble(be, w, k => if Addr(a, k) < |m| then m[Addr(a, k)] else 0)
  }

  // ----- The code's shift-and-or form -----

  lemma OrOfParts(high: word, low: word, k: nat)
    requires k < 32 && low < Pow2(k) && high < Pow2(32 - k)
    ensures Shl(high, k) == high * Pow2(k)
    ensures Or(Shl(high, k), low) == high * Pow2(k) + low
  {
    Pow2At32();
    DoubledBelow(high, k, 32 - k);
    OrDisjoint(high, low, k);
    DoubledIsProduct(high, k);
  }

  lemma OrBytes2(b1: byte, b0: byte)
    ensures Shl(b1, 8) % 0x1_0000 == Shl(b1, 8)
    ensures Or(Shl(b1, 8), b0) == Join2(b1, b0)
  {
    SmallPowers();
    OrOfParts(b1, b0, 8);
    assert Shl(b1, 8) as int == b1 as int * 0x100;
    HalfSized(Shl(b1, 8));
  }

  lemma HalfSized(x: word)
    requires x < 0x1_0000
    ensures x % 0x1_0000 == x
  {
  }

  lemma SmallPowers()
    ensures Pow2(8) == 0x100 && Pow2(16) == 0x1_0000 && Pow2(24) == 0x100_0000
  {
    assert Pow2(8) == 0x100;
    Pow2Add(8, 8);
    Pow2Add(16, 8);
  }

  lemma OrTopBytes(b3: byte, b2: byte)
    ensures Or(Shl(b3, 24), Shl(b2, 16)) == Join2(b3, b2) as int * 0x1_0000
  {
    SmallPowers();
    OrOfParts(b2, 0, 16);
    OrOfParts(b3, Shl(b2, 16), 24);
  }

  lemma OrThreeBytes(b3: byte, b2: byte, b1: byte)
    ensures Or(Or(Shl(b3, 24), Shl(b2, 16)), Shl(b1, 8)) == (Join2(b3, b2) as int * 0x100 + b1 as int) * 0x100
  {
    SmallPowers();
    OrTopBytes(b3, b2);
    OrOfParts(b1, 0, 8);
    OrOfParts(Join2(b3, b2), Shl(b1, 8), 16);
  }

  lemma OrBytes4(b3: byte, b2: byte, b1: byte, b0: byte)
    ensures Or(Or(Or(Shl(b3, 24), Shl(b2, 16)), Shl(b1, 8)), b0) == Join4(b3, b2, b1, b0)
  {
    SmallPowers();
    OrThreeBytes(b3, b2, b1);
    OrOfParts(Join2(b3, b2) as int * 0x100 + b1 as int, b0, 8);
  }

  lemma ShrBytes(v: word)
    ensures v % 0x100 == Byte(v, 0)
    ensures Shr(v, 8) % 0x100 == Byte(v, 1)
    ensures Shr(v, 16) % 0x100 == Byte(v, 2)
    ensures Shr(v, 24) % 0x100 == Byte(v, 3)
  {
    ShiftMeaning(v, 8);
    ShiftMeaning(v, 16);
    ShiftMeaning(v, 24);
    SmallPowers();
  }

  lemma AddrAdds(a: word, j: int, k: int)
    ensures Addr(Addr(a, j), k) == Addr(a, j + k)
  {
    WrapAdds(a + j, k);
  }

  lemma OffsetFromLater(a: word, d: nat, x: nat)
    requires d < 0x1_0000_0000 && x < 0x1_0000_0000
    ensures Offset(Addr(a, d), x) == Offset(a, x) - d + if Offset(a, x) < d then 0x1_0000_0000 else 0
  {
    assert Addr(a, d) == a + d - if a + d < 0x1_0000_0000 then 0 else 0x1_0000_0000;
    assert Offset(a, x) == x - a + if x >= a then 0 else 0x1_0000_0000;
  }

  lemma AddrOfOffset(a: word, x: nat)
    requires x < 0x1_0000_0000
    ensures Addr(a, Offset(a, x)) == x
  {
  }

  lemma OffsetOfAddr(a: word, k: nat)
    requires k < 0x1_0000_0000
    ensures Offset(a, Addr(a, k)) == k
  {
  }

  /** A memory holding the bytes of `v` in the block, and `m` elsewhere, is `m` after the store. */
  lemma StoreIs(m: seq<byte>, m': seq<byte>, be: bool, w: Width, a: word, v: word)
    requires |m'| == |m|
    requires forall k: nat :: k < w.Bytes() && Addr(a, k) < |m| ==> m'[Addr(a, k)] == ByteAt(be, w, v, k)
    requires forall x :: 0 <= x < |m| && !Covers(a, w.Bytes(), x) ==> m'[x] == m[x]
    ensures m' == Store(m, be, w, a, v)
  {
    forall x | 0 <= x < |m|
      ensures m'[x] == Store(m, be, w, a, v)[x]
    {
      if Covers(a, w.Bytes(), x) {
        AddrOfOffset(a, x);
      }
    }
  }

  lemma BlockAddresses(size: nat, a: word, n: nat)
    requires InBounds(size, a, n) && 1 <= n <= 4
    ensures Addr(a, 0) == a < size
    ensures n > 1 ==> Addr(a, 1) < size && Addr(a, 1) != a
    ensures n > 2 ==> Addr(a, 2) < size && Addr(a, 2) != a && Addr(a, 2) != Addr(a, 1)
    ensures n > 3 ==> Addr(a, 3) < size && Addr(a, 3) != a && Addr(a, 3) != Addr(a, 1) && Addr(a, 3) != Addr(a, 2)
    ensures forall k: nat :: k < n ==> Offset(a, Addr(a, k)) == k
  {
    forall k: nat | k < n
      ensures Offset(a, Addr(a, k)) == k
    {
      OffsetOfAddr(a, k);
    }
    assert Addr(a, 0) < size;
    assert n > 1 ==> Addr(a, 1) < size;
    assert n > 2 ==> Addr(a, 2) < size;
    assert n > 3 ==> Addr(a, 3) < size;
  }

  lemma UpdatesCommute(m: seq<byte>, a0: nat, a1: nat, a2: nat, a3: nat, b0: byte, b1: byte, b2: byte, b3: byte)
    requires a0 < |m| && a1 < |m| && a2 < |m| && a3 < |m|
    requires a0 != a1 && a0 != a2 && a0 != a3 && a1 != a2 && a1 != a3 && a2 != a3
    ensures m[a0 := b0][a1 := b1][a2 := b2][a3 := b3] == m[a3 := b3][a2 := b2][a1 := b1][a0 := b0]
  {
  }

  /** A word store is four byte updates, which may be made in either order. */
  lemma StoreWordIs(m: seq<byte>, be: bool, a: word, v: word, b0: byte, b1: byte, b2: byte, b3: byte)
    requires InBounds(|m|, a, 4)
    requires b0 == ByteAt(be, W32, v, 0) && b1 == ByteAt(be, W32, v, 1)
    requires b2 == ByteAt(be, W32, v, 2) && b3 == ByteAt(be, W32, v, 3)
    ensures Addr(a, 0) == a < |m| && Addr(a, 1) < |m| && Addr(a, 2) < |m| && Addr(a, 3) < |m|
    ensures Store(m, be, W32, a, v) == m[a := b0][Addr(a, 1) := b1][Addr(a, 2) := b2][Addr(a, 3) := b3]
    ensures Store(m, be, W32, a, v) == m[Addr(a, 3) := b3][Addr(a, 2) := b2][Addr(a, 1) := b1][a := b0]
  {
    BlockAddresses(|m|, a, 4);
    var up := m[a := b0][Addr(a, 1) := b1][Addr(a, 2) := b2][Addr(a, 3) := b3];
    forall x | 0 <= x < |m|
      ensures up[x] == Store(m, be, W32, a, v)[x]
    {
      if x < 0x1_0000_0000 {
        AddrOfOffset(a, x);
      }
    }
    assert up == Store(m, be, W32, a, v);
    UpdatesCommute(m, a, Addr(a, 1), Addr(a, 2), Addr(a, 3), b0, b1, b2, b3);
  }

  // ----- The memory object -----

  class Mem {
    const octets: array<byte>
    const isBigEndian: bool

    constructor (size: nat, be: bool)
      ensures fresh(octets) && octets.Length == size && isBigEndian == be
    {
      octets := new byte[size];
      isBigEndian := be;
    }

    method ReadByte(address: word) returns (rc: int, value: byte)
      requires InBounds(octets.Length, address, 1)
      ensures rc == 0 && value == Load(octets[..], isBigEndian, W8, address)
    {
      BlockAddresses(octets.Length, address, 1);
      value := octets[address];
      rc := 0;
    }

    method ReadHalf(address: word) returns (rc: int, value: half)
      requires InBounds(octets.Length, address, 2)
      ensures rc == 0 && value == Load(octets[..], isBigEndian, W16, address)
    {
      BlockAddresses(octets.Length, address, 2);
      if isBigEndian {
        OrBytes2(octets[address], octets[Addr(address, 1)]);
        value := Shl(octets[address], 8) % 0x1_0000;
        value := Or(value, octets[Addr(address, 1)]);
      } else {
        OrBytes2(octets[Addr(address, 1)], octets[address]);
        value := Shl(octets[Addr(address, 1)], 8) % 0x1_0000;
        value := Or(value, octets[address]);
      }
      rc := 0;
    }

    method ReadWord(address: word) returns (rc: int, value: word)
      requires InBounds(octets.Length, address, 4)
      ensures rc == 0 && value == Load(octets[..], isBigEndian, W32, address)
    {
      BlockAddresses(octets.Length, address, 4);
      ghost var b0, b1 := octets[address], octets[Addr(address, 1)];
      ghost var b2, b3 := octets[Addr(address, 2)], octets[Addr(address, 3)];
      if isBigEndian {
        OrBytes4(b0, b1, b2, b3);
        value := Or(Or(Or(Shl(octets[address], 24), Shl(octets[Addr(address, 1)], 16)),
                       Shl(octets[Addr(address, 2)], 8)), octets[Addr(address, 3)]);
      } else {
        OrBytes4(b3, b2, b1, b0);
        value := Or(Or(Or(Shl(octets[Addr(address, 3)], 24), Shl(octets[Addr(address, 2)], 16)),
                       Shl(octets[Addr(address, 1)], 8)), octets[address]);
      }
      rc := 0;
    }

    method WriteByte(address: word, value: byte) returns (rc: int)
      requires InBounds(octets.Length, address, 1)
      modifies octets
      ensures rc == 0 && octets[..] == Store(old(octets[..]), isBigEndian, W8, address, value)
    {
      ghost var was := octets[..];
      BlockAddresses(octets.Length, address, 1);
      octets[address] := value;
      StoreIs(was, octets[..], isBigEndian, W8, address, value);
      rc := 0;
    }

    method WriteHalf(address: word, value: half) returns (rc: int)
      requires InBounds(octets.Length, address, 2)
      modifies octets
      ensures rc == 0 && octets[..] == Store(old(octets[..]), isBigEndian, W16, address, value)
    {
      ghost var was := octets[..];
      BlockAddresses(octets.Length, address, 2);
      ShrBytes(value);
      if isBigEndian {
        octets[address] := Shr(value, 8) % 0x100;
        octets[Addr(address, 1)] := value % 0x100;
      } else {
        octets[address] := value % 0x100;
        octets[Addr(address, 1)] := Shr(value, 8) % 0x100;
      }
      StoreIs(was, octets[..], isBigEndian, W16, address, value);
      rc := 0;
    }

    method WriteWord(address: word, value: word) returns (rc: int)
      requires InBounds(octets.Length, address, 4)
      modifies octets
      ensures rc == 0 && octets[..] == Store(old(octets[..]), isBigEndian, W32, address, value)
    {
      ghost var was := octets[..];
      BlockAddresses(octets.Length, address, 4);
      ShrBytes(value);
      if isBigEndian {
        octets[address] := Shr(value, 24) % 0x100;
        octets[Addr(address, 1)] := Shr(value, 16) % 0x100;
        octets[Addr(address, 2)] := Shr(value, 8) % 0x100;
        octets[Addr(address, 3)] := value % 0x100;
      } else {
        octets[Addr(address, 3)] := Shr(value, 24) % 0x100;
        octets[Addr(address, 2)] := Shr(value, 16) % 0x100;
        octets[Addr(address, 1)] := Shr(value, 8) % 0x100;
        octets[address] := value % 0x100;
      }
      StoreWordIs(was, isBigEndian, address, value,
                  octets[address], octets[Addr(address, 1)], octets[Addr(address, 2)], octets[Addr(address, 3)]);
      rc := 0;
    }
  }

}
