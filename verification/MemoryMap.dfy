/** What memory.c promises over whole runs of writes, against a plain map from
    addresses to bytes, and how its two byte orders relate. */
module MemoryMap {
  import opened Bits
  import opened Util
  import opened Memory

  datatype Write = Write(w: Width, a: word, v: word)
  {
    /** The C parameter types bound the value by the width. */
    predicate Fits() {
      match w
      case W8 => v < 0x100
      case W16 => v < 0x1_0000
      case W32 => true
    }

    predicate Hits(x: nat) {
      Covers(a, w.Bytes(), x)
    }

    function ByteFor(be: bool, x: nat): byte
      requires Hits(x)
    {
      ByteAt(be, w, v, Offset(a, x))
    }
  }

  /** The memory after a run of writes. */
  function Run(m: seq<byte>, be: bool, ws: seq<Write>): (m': seq<byte>)
    ensures |m'| == |m|
  {
    if ws == [] then m
    else
      var last := ws[|ws| - 1];
      Store(Run(m, be, ws[..|ws| - 1]), be, last.w, last.a, last.v)
  }

  /** The last write that hits `x`, or -1. */
  function LastHit(ws: seq<Write>, x: nat): (i: int)
    ensures -1 <= i < |ws|
    ensures i >= 0 ==> ws[i].Hits(x)
    ensures forall j :: i < j < |ws| ==> !ws[j].Hits(x)
  {
    if ws == [] then -1
    else if ws[|ws| - 1].Hits(x) then |ws| - 1
    else LastHit(ws[..|ws| - 1], x)
  }

  /** The plain byte map: the byte last written at `x`, or the one there at the start. */
  function Latest(m: seq<byte>, be: bool, ws: seq<Write>, x: nat): byte
    requires x < |m|
  {
    var i := LastHit(ws, x);
    if i < 0 then m[x] else ws[i].ByteFor(be, x)
  }

  lemma {:induction false} RunHoldsLatest(m: seq<byte>, be: bool, ws: seq<Write>, x: nat)
    requires x < |m|
    ensures Run(m, be, ws)[x] == Latest(m, be, ws, x)
  {
    if ws != [] && !ws[|ws| - 1].Hits(x) {
      RunHoldsLatest(m, be, ws[..|ws| - 1], x);
    }
  }

  lemma AssembleFrom(be: bool, w: Width, f: nat -> byte, g: nat -> byte)
    requires forall k: nat :: k < w.Bytes() ==> f(k) == g(k)
    ensures Assemble(be, w, f) == Assemble(be, w, g)
  {
    assert f(0) == g(0);
    assert !w.W8? ==> f(1) == g(1);
    assert w.W32? ==> f(2) == g(2) && f(3) == g(3);
  }

  /** After any run of byte, half and word writes, overlapping or not, a read of any
      width is assembled from the byte last written at each of its addresses. */
  lemma ReadsFollowLatest(m: seq<byte>, be: bool, ws: seq<Write>, w: Width, a: word)
    requires InBounds(|m|, a, w.Bytes())
    ensures Load(Run(m, be, ws), be, w, a)
         == Assemble(be, w, k => if Addr(a, k) < |m| then Latest(m, be, ws, Addr(a, k)) else 0)
  {
    var m' := Run(m, be, ws);
    forall k: nat | k < w.Bytes()
      ensures m'[Addr(a, k)] == Latest(m, be, ws, Addr(a, k))
    {
      RunHoldsLatest(m, be, ws, Addr(a, k));
    }
    AssembleFrom(be, w, k => if Addr(a, k) < |m'| then m'[Addr(a, k)] else 0,
                        k => if Addr(a, k) < |m| then Latest(m, be, ws, Addr(a, k)) else 0);
  }

  // ----- One write, one read -----

  lemma LoadByBytes(m: seq<byte>, be: bool, w: Width, a: word)
    requires InBounds(|m|, a, w.Bytes())
    ensures forall k: nat :: k < w.Bytes() ==> Addr(a, k) < |m|
    ensures Addr(a, 0) == a < |m|
    ensures w.W8? ==> Load(m, be, w, a) == m[a]
    ensures w.W16? && be ==> Load(m, be, w, a) == Join2(m[a], m[Addr(a, 1)])
    ensures w.W16? && !be ==> Load(m, be, w, a) == Join2(m[Addr(a, 1)], m[a])
    ensures w.W32? && be ==> Load(m, be, w, a) == Join4(m[a], m[Addr(a, 1)], m[Addr(a, 2)], m[Addr(a, 3)])
    ensures w.W32? && !be ==> Load(m, be, w, a) == Join4(m[Addr(a, 3)], m[Addr(a, 2)], m[Addr(a, 1)], m[a])
  {
    assert Addr(a, 0) == a;
  }

  lemma StoredBytes(m: seq<byte>, be: bool, w: Width, a: word, v: word)
    requires InBounds(|m|, a, w.Bytes())
    ensures forall k: nat :: k < w.Bytes() ==>
              Addr(a, k) < |m| && Store(m, be, w, a, v)[Addr(a, k)] == ByteAt(be, w, v, k)
  {
    forall k: nat | k < w.Bytes()
      ensures Addr(a, k) < |m| && Store(m, be, w, a, v)[Addr(a, k)] == ByteAt(be, w, v, k)
    {
      OffsetOfAddr(a, k);
    }
  }

  lemma BytesRebuild(v: word)
    ensures v == Join4(Byte(v, 3), Byte(v, 2), Byte(v, 1), Byte(v, 0))
    ensures v % 0x1_0000 == Join2(Byte(v, 1), Byte(v, 0))
    ensures v / 0x1_0000 == Join2(Byte(v, 3), Byte(v, 2))
  {
    var q1 := v / 0x100;
    var q2 := q1 / 0x100;
    var q3 := q2 / 0x100;
    assert v / 0x1_0000 == q2;
    assert v / 0x100_0000 == q3;
    assert q3 < 0x100;
    assert v % 0x1_0000 == (q1 % 0x100) * 0x100 + v % 0x100;
  }

  /** A memory that holds the bytes of a value reads as that value. */
  lemma LoadOfBytes(m: seq<byte>, be: bool, write: Write)
    requires write.Fits() && InBounds(|m|, write.a, write.w.Bytes())
    requires forall k: nat :: k < write.w.Bytes() ==>
               Addr(write.a, k) < |m| && m[Addr(write.a, k)] == ByteAt(be, write.w, write.v, k)
    ensures Load(m, be, write.w, write.a) == write.v
  {
    var Write(w, a, v) := write;
    LoadByBytes(m, be, w, a);
    assert m[Addr(a, 0)] == ByteAt(be, w, v, 0);
    match w
    case W8 =>
    case W16 =>
      assert m[Addr(a, 1)] == ByteAt(be, w, v, 1);
      HalfRebuilds(v);
    case W32 =>
      assert m[Addr(a, 1)] == ByteAt(be, w, v, 1) && m[Addr(a, 2)] == ByteAt(be, w, v, 2);
      assert m[Addr(a, 3)] == ByteAt(be, w, v, 3);
      BytesRebuild(v);
  }

  /** The bytes of a value are its digits. */
  lemma ByteIsDigit(v: nat, p: nat)
    requires p < 4
    ensures Byte(v, p) == v / Pow2(8 * p) % 0x100
  {
    SmallPowers();
    assert Pow2(0) == 1;
  }

  lemma HalfRebuilds(v: half)
    ensures v == Join2(Byte(v, 1), Byte(v, 0))
  {
    BytesRebuild(v);
  }

  /** Same width, same byte order: the value comes back. */
  lemma LoadAfterStore(m: seq<byte>, be: bool, write: Write)
    requires write.Fits() && InBounds(|m|, write.a, write.w.Bytes())
    ensures Load(Store(m, be, write.w, write.a, write.v), be, write.w, write.a) == write.v
  {
    StoredBytes(m, be, write.w, write.a, write.v);
    LoadOfBytes(Store(m, be, write.w, write.a, write.v), be, write);
  }

  lemma LowByte(v: nat)
    ensures Combine(AndGate, v, 0xFF) == v % 0x100
  {
    SmallPowers();
    AndMask(v, 8);
    LowIsRemainder(v, 8);
  }

  lemma Reverse4Meaning(v: word)
    ensures Reverse4(v) == Join4(Byte(v, 0), Byte(v, 1), Byte(v, 2), Byte(v, 3))
  {
    LowByte(v);
    LowByte(Shr(v, 8));
    LowByte(Shr(v, 16));
    LowByte(Shr(v, 24));
    ShrBytes(v);
    OrBytes4(Byte(v, 0), Byte(v, 1), Byte(v, 2), Byte(v, 3));
  }

  lemma Reverse2Meaning(v: half)
    ensures Reverse2(v) == Join2(Byte(v, 0), Byte(v, 1))
  {
    LowByte(v);
    LowByte(Shr(v, 8));
    ShrBytes(v);
    OrBytes2(Byte(v, 0), Byte(v, 1));
  }

  /** Written in one byte order and read in the other, a word comes back reversed. */
  lemma OtherOrderReversesWord(m: seq<byte>, be: bool, a: word, v: word)
    requires InBounds(|m|, a, 4)
    ensures Load(Store(m, be, W32, a, v), !be, W32, a) == Reverse4(v)
  {
    Reverse4Meaning(v);
    StoredBytes(m, be, W32, a, v);
    LoadByBytes(Store(m, be, W32, a, v), !be, W32, a);
    assert Addr(a, 0) == a;
  }

  lemma OtherOrderReversesHalf(m: seq<byte>, be: bool, a: word, v: half)
    requires InBounds(|m|, a, 2)
    ensures Load(Store(m, be, W16, a, v), !be, W16, a) == Reverse2(v)
  {
    Reverse2Meaning(v);
    StoredBytes(m, be, W16, a, v);
    LoadByBytes(Store(m, be, W16, a, v), !be, W16, a);
    assert Addr(a, 0) == a;
  }

  lemma HalvesInBounds(size: nat, a: word)
    requires InBounds(size, a, 4)
    ensures InBounds(size, a, 2) && InBounds(size, Addr(a, 2), 2)
    ensures Addr(Addr(a, 2), 1) == Addr(a, 3)
  {
    forall k: nat | k < 2
      ensures Addr(Addr(a, 2), k) < size
    {
      assert Addr(Addr(a, 2), k) == Addr(a, k + 2);
    }
  }

  /** The two halves of a stored word: the high one comes first exactly in big-endian order. */
  lemma WordSplitsIntoHalves(m: seq<byte>, be: bool, a: word, v: word)
    requires InBounds(|m|, a, 4)
    ensures InBounds(|m|, a, 2) && InBounds(|m|, Addr(a, 2), 2)
    ensures Load(Store(m, be, W32, a, v), be, W16, a) == if be then v / 0x1_0000 else v % 0x1_0000
    ensures Load(Store(m, be, W32, a, v), be, W16, Addr(a, 2)) == if be then v % 0x1_0000 else v / 0x1_0000
  {
    var m' := Store(m, be, W32, a, v);
    HalvesInBounds(|m|, a);
    StoredBytes(m, be, W32, a, v);
    LoadByBytes(m', be, W16, a);
    LoadByBytes(m', be, W16, Addr(a, 2));
    assert m'[a] == ByteAt(be, W32, v, 0) && m'[Addr(a, 1)] == ByteAt(be, W32, v, 1);
    assert m'[Addr(a, 2)] == ByteAt(be, W32, v, 2) && m'[Addr(a, 3)] == ByteAt(be, W32, v, 3);
    BytesRebuild(v);
  }

  /** A byte read inside a stored word gives the byte the order dictates. */
  lemma ByteInsideWord(m: seq<byte>, be: bool, a: word, v: word, k: nat)
    requires k < 4 && InBounds(|m|, a, 4)
    ensures InBounds(|m|, Addr(a, k), 1)
    ensures Load(Store(m, be, W32, a, v), be, W8, Addr(a, k)) == Byte(v, if be then 3 - k else k)
  {
    StoredBytes(m, be, W32, a, v);
    assert Addr(Addr(a, k), 0) == Addr(a, k) < |m|;
    LoadByBytes(Store(m, be, W32, a, v), be, W8, Addr(a, k));
  }
}
