/** Word-aligned addresses, blocks of bytes, and what it shows that a block is written up to three bytes past
    the aligned address. */
module Alignment {
  import opened Bits
  import opened Memory
  import opened MemoryMap

  // ----- Words and their bytes -----

  lemma LastDigit(q: int, b: byte, q': int, b': byte)
    ensures q * 0x100 + b as int == q' * 0x100 + b' as int <==> q == q' && b == b'
  {
  }

  lemma Join4Injective(b3: byte, b2: byte, b1: byte, b0: byte, c3: byte, c2: byte, c1: byte, c0: byte)
    ensures Join4(b3, b2, b1, b0) == Join4(c3, c2, c1, c0) <==> b3 == c3 && b2 == c2 && b1 == c1 && b0 == c0
  {
    var p2: int, q2: int := b3 as int * 0x100 + b2 as int, c3 as int * 0x100 + c2 as int;
    var p1: int, q1: int := p2 * 0x100 + b1 as int, q2 * 0x100 + c1 as int;
    LastDigit(p1, b0, q1, c0);
    LastDigit(p2, b1, q2, c1);
    LastDigit(b3, b2, c3, c2);
  }

  function WordOf(be: bool, c: seq<byte>): word
    requires |c| == 4
  {
    if be then Join4(c[0], c[1], c[2], c[3]) else Join4(c[3], c[2], c[1], c[0])
  }

  /** The four bytes from `a` on. */
  function BytesAt(m: seq<byte>, a: word): (c: seq<byte>)
    requires InBounds(|m|, a, 4)
    ensures |c| == 4
  {
    BlockAddresses(|m|, a, 4);
    [m[a], m[Addr(a, 1)], m[Addr(a, 2)], m[Addr(a, 3)]]
  }

  lemma LoadIsWordOf(m: seq<byte>, be: bool, a: word)
    requires InBounds(|m|, a, 4)
    ensures Load(m, be, W32, a) == WordOf(be, BytesAt(m, a))
    ensures forall k: nat :: k < 4 ==> Addr(a, k) < |m| && BytesAt(m, a)[k] == m[Addr(a, k)]
  {
    LoadByBytes(m, be, W32, a);
  }

  lemma WordsOfEqual(be: bool, c: seq<byte>, d: seq<byte>)
    requires |c| == |d| == 4
    ensures WordOf(be, c) == WordOf(be, d) <==> forall k: nat :: k < 4 ==> c[k] == d[k]
  {
    Join4Injective(c[0], c[1], c[2], c[3], d[0], d[1], d[2], d[3]);
    Join4Injective(c[3], c[2], c[1], c[0], d[3], d[2], d[1], d[0]);
  }

  // ----- Aligned addresses -----

  /** The word-aligned address at or below `a`. */
  function Aligned(a: word): word {
    a - a % 4
  }

  lemma AlignedInBounds(size: nat, a: word)
    requires InBounds(size, a, 4)
    ensures InBounds(size, Aligned(a), 4)
  {
    BlockAddresses(size, a, 4);
    forall k: nat | k < 4
      ensures Addr(Aligned(a), k) < size
    {
      assert Addr(Aligned(a), k) <= Addr(Aligned(a), 3) == Addr(a, 3 - a % 4);
    }
  }

  lemma AlignedAddr(a: word, k: int)
    ensures Addr(Aligned(a), a % 4 + k) == Addr(a, k)
  {
  }

  /** A block from `a` on that holds at least a word reaches every byte from the aligned address on. */
  lemma AlignedBlock(size: nat, a: word, n: nat, q: nat)
    requires InBounds(size, a, n) && 4 <= n && q < n + a % 4
    ensures Addr(Aligned(a), q) < size
  {
    if q < 4 {
      forall k: nat | k < 4
        ensures Addr(a, k) < size
      {
      }
      AlignedInBounds(size, a);
    } else {
      AlignedAddr(a, q - a % 4);
      assert Addr(a, q - a % 4) < size;
    }
  }

  // ----- Blocks of bytes -----

  /** `m` with the bytes `b` written from `a` on. */
  function Image(m: seq<byte>, a: word, b: seq<byte>): (m': seq<byte>)
    ensures |m'| == |m|
  {
    seq(|m|, x requires 0 <= x < |m| => if Covers(a, |b|, x) then b[Offset(a, x)] else m[x])
  }

  /** The bytes of a word in address order. */
  function SplitWord(be: bool, v: word): (b: seq<byte>)
    ensures |b| == 4
  {
    [ByteAt(be, W32, v, 0), ByteAt(be, W32, v, 1), ByteAt(be, W32, v, 2), ByteAt(be, W32, v, 3)]
  }

  lemma StoreIsImage(m: seq<byte>, be: bool, a: word, v: word)
    ensures Store(m, be, W32, a, v) == Image(m, a, SplitWord(be, v))
  {
  }

  /** A word stored right after a block makes the block longer. */
  lemma ImageAppend(m: seq<byte>, be: bool, a: word, b: seq<byte>, v: word)
    requires |b| + 4 <= 0x1_0000_0000
    ensures Store(Image(m, a, b), be, W32, Addr(a, |b|), v) == Image(m, a, b + SplitWord(be, v))
  {
    var code, all := Store(Image(m, a, b), be, W32, Addr(a, |b|), v), Image(m, a, b + SplitWord(be, v));
    forall x: nat | x < |m|
      ensures code[x] == all[x]
    {
      if x < 0x1_0000_0000 {
        OffsetFromLater(a, |b|, x);
      }
    }
  }

  // ----- Where the low address bits do not show -----

  predicate RepeatsBack(b: seq<byte>, r: nat, q: nat)
    requires r <= q < |b|
  {
    b[q] == b[q - r]
  }

  predicate HeldAt(m: seq<byte>, a: word, q: nat, value: byte) {
    Addr(a, q) < |m| && m[Addr(a, q)] == value
  }

  /** With r the two low bits of `a`: the first r bytes are in memory already from the aligned address on, the
      block repeats at distance r, and its last r bytes are in memory already where a write at `a` puts them. */
  ghost predicate LowBitsHidden(m: seq<byte>, a: word, b: seq<byte>) {
    var r := a % 4;
    && (forall q: nat :: q < r && q < |b| ==> HeldAt(m, Aligned(a), q, b[q]))
    && (forall q: nat :: r <= q < |b| ==> RepeatsBack(b, r, q))
    && (forall q: nat :: |b| - r <= q < |b| ==> HeldAt(m, a, q, b[q]))
  }

  lemma BothImages(m: seq<byte>, a: word, b: seq<byte>, x: nat)
    requires x < |m| && x < 0x1_0000_0000 && |b| + a % 4 <= 0x1_0000_0000
    ensures var p, r := Offset(Aligned(a), x), a % 4;
            && Image(m, Aligned(a), b)[x] == (if p < |b| then b[p] else m[x])
            && Image(m, a, b)[x] == (if r <= p < r + |b| then b[p - r] else m[x])
  {
    AlignedAddr(a, 0);
    OffsetFromLater(Aligned(a), a % 4, x);
  }

  /** The two memories `p` bytes past the aligned address. */
  lemma ImagesAt(m: seq<byte>, a: word, b: seq<byte>, p: nat)
    requires InBounds(|m|, a, |b|) && 4 <= |b| && |b| + a % 4 <= 0x1_0000_0000 && p < |b| + a % 4
    ensures var x, r := Addr(Aligned(a), p), a % 4;
            && x < |m|
            && Image(m, Aligned(a), b)[x] == (if p < |b| then b[p] else m[x])
            && Image(m, a, b)[x] == (if r <= p then b[p - r] else m[x])
  {
    AlignedBlock(|m|, a, |b|, p);
    OffsetOfAddr(Aligned(a), p);
    BothImages(m, a, b, Addr(Aligned(a), p));
  }

  lemma HiddenShowsNowhere(m: seq<byte>, a: word, b: seq<byte>, x: nat)
    requires 4 <= |b| && |b| + a % 4 <= 0x1_0000_0000 && LowBitsHidden(m, a, b) && x < |m|
    ensures Image(m, a, b)[x] == Image(m, Aligned(a), b)[x]
  {
    if x < 0x1_0000_0000 {
      var p, r := Offset(Aligned(a), x), a % 4;
      BothImages(m, a, b, x);
      AddrOfOffset(Aligned(a), x);
      if p < r {
        assert HeldAt(m, Aligned(a), p, b[p]);
      } else if p < |b| {
        assert RepeatsBack(b, r, p);
      } else if p < |b| + r {
        AlignedAddr(a, p - r);
        assert HeldAt(m, a, p - r, b[p - r]);
      }
    }
  }

  lemma AgreeingHide(m: seq<byte>, a: word, b: seq<byte>)
    requires InBounds(|m|, a, |b|) && |b| + a % 4 <= 0x1_0000_0000 && 4 <= |b|
    requires Image(m, a, b) == Image(m, Aligned(a), b)
    ensures LowBitsHidden(m, a, b)
  {
    var r := a % 4;
    forall q: nat | q < r
      ensures HeldAt(m, Aligned(a), q, b[q])
    {
      ImagesAt(m, a, b, q);
    }
    forall q: nat | r <= q < |b|
      ensures RepeatsBack(b, r, q)
    {
      ImagesAt(m, a, b, q);
    }
    forall q: nat | |b| - r <= q < |b|
      ensures HeldAt(m, a, q, b[q])
    {
      ImagesAt(m, a, b, q + r);
      AlignedAddr(a, q);
    }
  }

  lemma WhereWordsAgree(m: seq<byte>, a: word, b: seq<byte>, n: nat)
    requires |b| == 4 * n && n <= 16 && InBounds(|m|, a, 4 * n)
    ensures Image(m, a, b) == Image(m, Aligned(a), b) <==> LowBitsHidden(m, a, b)
  {
    WhereImagesAgree(m, a, b);
  }

  /** Writing at `a` and writing at the aligned address come to the same exactly then. */
  lemma WhereImagesAgree(m: seq<byte>, a: word, b: seq<byte>)
    requires InBounds(|m|, a, |b|) && |b| + a % 4 <= 0x1_0000_0000 && (b == [] || 4 <= |b|)
    ensures Image(m, a, b) == Image(m, Aligned(a), b) <==> LowBitsHidden(m, a, b)
  {
    var code, manual := Image(m, a, b), Image(m, Aligned(a), b);
    if b == [] {
      assert code == manual;
    } else if LowBitsHidden(m, a, b) {
      forall x: nat | x < |m|
        ensures code[x] == manual[x]
      {
        HiddenShowsNowhere(m, a, b, x);
      }
      assert code == manual;
    } else if code == manual {
      AgreeingHide(m, a, b);
    }
  }
}
