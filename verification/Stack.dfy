/** Decrement-before stores and increment-after loads as a full descending stack, over
    every run in which the program keeps the stack pointer itself (the code never
    writes it back) and writes elsewhere between the block transfers. */
module Stack {
  import opened Bits
  import opened Memory
  import opened MemoryMap
  import opened Registers
  import opened ArmCore
  import opened Conditions
  import opened Fields
  import opened LoadStoreMultiple
  import opened BlockTransfer

  /** A pushed list and the register file it was pushed from. */
  datatype Frame = Frame(list: half, regs: seq<word>)

  /** The memory, the stack pointer, and the frames that ought to be on the stack, the top one last. */
  datatype Config = Config(mem: seq<byte>, be: bool, sp: word, frames: seq<Frame>)

  datatype Event =
    | Push(regs: seq<word>, mode: byte, ins: word)
    | Pop(regs: seq<word>, mode: byte, ins: word)
    | Poke(write: Write)

  function Size(frames: seq<Frame>): nat {
    if frames == [] then 0 else Size(frames[..|frames| - 1]) + 4 * Count(frames[|frames| - 1].list)
  }

  function StateAt(c: Config, e: Event): State
    requires !e.Poke?
  {
    State(e.regs, e.mode, c.mem, c.be)
  }

  /** A block transfer based at the stack pointer whose condition passes, without R15. */
  predicate Transfers(c: Config, e: Event)
    requires !e.Poke?
  {
    && |e.regs| == SLOTS && Known(e.mode)
    && ReadReg(e.regs, Rn(e.ins)) == c.sp
    && Passes(StateAt(c, e), e.ins)
    && Bit(RegisterList(e.ins), 15) == 0
  }

  /** What the program sees to: pushes stay in memory and within the address space, a pop names the
      list of the top frame, and other stores keep off the live frames. */
  ghost predicate Legal(c: Config, e: Event) {
    match e
    case Push(_, _, ins) =>
      && Transfers(c, e) && IsStm(ins) && PBit(ins) == 1 && UBit(ins) == 0
      && BlockInBounds(StateAt(c, e), ins)
      && Size(c.frames) + 4 * Count(RegisterList(ins)) <= 0x1_0000_0000
    case Pop(_, _, ins) =>
      && Transfers(c, e) && IsLdm(ins) && PBit(ins) == 0 && UBit(ins) == 1
      && c.frames != [] && RegisterList(ins) == c.frames[|c.frames| - 1].list
    case Poke(write) =>
      && write.Fits() && InBounds(|c.mem|, write.a, write.w.Bytes())
      && forall x: nat :: write.Hits(x) ==> !Covers(c.sp, Size(c.frames), x)
  }

  function Next(c: Config, e: Event): Config
    requires Legal(c, e)
  {
    match e
    case Push(regs, _, ins) =>
      var s := StateAt(c, e);
      Config(Execute(s, ins).mem, c.be, BlockStart(s, ins), c.frames + [Frame(RegisterList(ins), regs)])
    case Pop(_, _, ins) =>
      c.(sp := NewBase(1, c.sp, Count(RegisterList(ins))), frames := c.frames[..|c.frames| - 1])
    case Poke(write) =>
      c.(mem := Store(c.mem, c.be, write.w, write.a, write.v))
  }

  ghost predicate LegalRun(c: Config, events: seq<Event>)
    decreases |events|
  {
    events == [] || (Legal(c, events[0]) && LegalRun(Next(c, events[0]), events[1..]))
  }

  ghost function After(c: Config, events: seq<Event>): Config
    requires LegalRun(c, events)
    decreases |events|
  {
    if events == [] then c else After(Next(c, events[0]), events[1..])
  }

  // ----- The invariant -----

  ghost predicate FrameHeld(m: seq<byte>, be: bool, start: word, f: Frame) {
    && |f.regs| == SLOTS && InBounds(|m|, start, 4 * Count(f.list))
    && Bit(f.list, 15) == 0
    && forall r: nat :: r < 15 && Bit(f.list, r) == 1 ==> LdmWord(m, be, f.list, start, r) == f.regs[r]
  }

  /** Every frame lies in memory, the top one at `sp` and each other one right above the next. */
  ghost predicate Held(m: seq<byte>, be: bool, sp: word, frames: seq<Frame>)
    decreases |frames|
  {
    frames == [] ||
    var top := frames[|frames| - 1];
    FrameHeld(m, be, sp, top) && Held(m, be, Addr(sp, 4 * Count(top.list)), frames[..|frames| - 1])
  }

  ghost predicate Invariant(c: Config) {
    Size(c.frames) <= 0x1_0000_0000 && Held(c.mem, c.be, c.sp, c.frames)
  }

  lemma CoversPart(a: word, d: nat, n: nat, x: nat)
    requires d + n <= 0x1_0000_0000 && Covers(Addr(a, d), n, x)
    ensures Covers(a, d + n, x) && d <= Offset(a, x)
  {
    if d < 0x1_0000_0000 {
      OffsetFromLater(a, d, x);
    }
  }

  lemma FrameUnaffected(m: seq<byte>, m': seq<byte>, be: bool, start: word, f: Frame)
    requires |m'| == |m| && FrameHeld(m, be, start, f)
    requires forall x: nat :: x < |m| && Covers(start, 4 * Count(f.list), x) ==> m'[x] == m[x]
    ensures FrameHeld(m', be, start, f)
  {
    forall r: nat | r < 15 && Bit(f.list, r) == 1
      ensures LdmWord(m', be, f.list, start, r) == LdmWord(m, be, f.list, start, r)
    {
      var a := Slot(f.list, start, r);
      SlotInBlock(|m|, f.list, start, r);
      forall k: nat | k < 4
        ensures Addr(a, k) < |m| && m'[Addr(a, k)] == m[Addr(a, k)]
      {
        OffsetOfAddr(a, k);
        SlotBytes(f.list, start, r, Addr(a, k));
        RankMonotone(f.list, r + 1, 16);
      }
      AssembleFrom(be, W32, k => if Addr(a, k) < |m'| then m'[Addr(a, k)] else 0,
                            k => if Addr(a, k) < |m| then m[Addr(a, k)] else 0);
    }
  }

  lemma {:induction false} HeldUnaffected(m: seq<byte>, m': seq<byte>, be: bool, sp: word, frames: seq<Frame>)
    requires |m'| == |m| && Held(m, be, sp, frames) && Size(frames) <= 0x1_0000_0000
    requires forall x: nat :: x < |m| && Covers(sp, Size(frames), x) ==> m'[x] == m[x]
    ensures Held(m', be, sp, frames)
    decreases |frames|
  {
    if frames != [] {
      var top, rest := frames[|frames| - 1], frames[..|frames| - 1];
      FrameUnaffected(m, m', be, sp, top);
      forall x: nat | x < |m| && Covers(Addr(sp, 4 * Count(top.list)), Size(rest), x)
        ensures m'[x] == m[x]
      {
        CoversPart(sp, 4 * Count(top.list), Size(rest), x);
      }
      HeldUnaffected(m, m', be, Addr(sp, 4 * Count(top.list)), rest);
    }
  }

  lemma DownThenUp(b: word, n: nat)
    ensures Addr(StartAddress(1, 0, b, n), 4 * n) == b
  {
    AddrAdds(b, -4 * n, 4 * n);
  }

  lemma PushAddress(c: Config, e: Event)
    requires e.Push? && Legal(c, e)
    ensures Addr(Next(c, e).sp, 4 * Count(RegisterList(e.ins))) == c.sp
    ensures Next(c, e).sp == BlockStart(StateAt(c, e), e.ins)
  {
    DownThenUp(c.sp, Count(RegisterList(e.ins)));
  }

  lemma PushedFrame(c: Config, e: Event)
    requires e.Push? && Legal(c, e)
    ensures |Next(c, e).mem| == |c.mem|
    ensures FrameHeld(Next(c, e).mem, c.be, Next(c, e).sp, Frame(RegisterList(e.ins), e.regs))
  {
    var s, list := StateAt(c, e), RegisterList(e.ins);
    var m, start := Next(c, e).mem, BlockStart(s, e.ins);
    StmLayoutAndFrame(s, e.ins);
    forall r: nat | r < 15 && Bit(list, r) == 1
      ensures LdmWord(m, c.be, list, start, r) == e.regs[r]
    {
      assert WordAddress(s, e.ins, r) == Slot(list, start, r);
    }
  }

  lemma PushKeeps(c: Config, e: Event)
    requires Invariant(c) && e.Push? && Legal(c, e)
    ensures Invariant(Next(c, e))
  {
    var d, n := Next(c, e), 4 * Count(RegisterList(e.ins));
    PushAddress(c, e);
    PushedFrame(c, e);
    forall x: nat | x < |c.mem| && Covers(c.sp, Size(c.frames), x)
      ensures d.mem[x] == c.mem[x]
    {
      CoversPart(d.sp, n, Size(c.frames), x);
      StmLayoutAndFrame(StateAt(c, e), e.ins);
    }
    HeldUnaffected(c.mem, d.mem, c.be, c.sp, c.frames);
    assert d.frames[..|d.frames| - 1] == c.frames;
  }

  lemma PokeKeeps(c: Config, e: Event)
    requires Invariant(c) && e.Poke? && Legal(c, e)
    ensures Invariant(Next(c, e))
  {
    var m := Next(c, e).mem;
    forall x: nat | x < |c.mem| && Covers(c.sp, Size(c.frames), x)
      ensures m[x] == c.mem[x]
    {
      assert !e.write.Hits(x);
    }
    HeldUnaffected(c.mem, m, c.be, c.sp, c.frames);
  }

  /** The address just above the live frames. */
  function Floor(c: Config): word {
    Addr(c.sp, Size(c.frames))
  }

  lemma PushFloor(sp: word, frames: seq<Frame>, f: Frame)
    ensures Addr(StartAddress(1, 0, sp, Count(f.list)), Size(frames + [f])) == Addr(sp, Size(frames))
  {
    assert (frames + [f])[..|frames + [f]| - 1] == frames;
    AddrAdds(sp, -4 * Count(f.list), Size(frames + [f]));
  }

  lemma PopFloor(sp: word, frames: seq<Frame>)
    requires frames != []
    ensures var n := Count(frames[|frames| - 1].list);
            Addr(NewBase(1, sp, n), Size(frames[..|frames| - 1])) == Addr(sp, Size(frames))
  {
    AddrAdds(sp, 4 * Count(frames[|frames| - 1].list), Size(frames[..|frames| - 1]));
  }

  lemma FloorFixed(c: Config, e: Event)
    requires Legal(c, e)
    ensures Floor(Next(c, e)) == Floor(c)
  {
    match e
    case Push(_, _, ins) =>
      PushFloor(c.sp, c.frames, Frame(RegisterList(ins), e.regs));
    case Pop(_, _, ins) =>
      PopFloor(c.sp, c.frames);
    case Poke(_) =>
  }

  lemma StepKeeps(c: Config, e: Event)
    requires Invariant(c) && Legal(c, e)
    ensures Invariant(Next(c, e))
  {
    match e
    case Push(_, _, _) => PushKeeps(c, e);
    case Pop(_, _, _) =>
    case Poke(_) => PokeKeeps(c, e);
  }

  /** Every run keeps every live frame in memory, and its live frames end where they began. */
  lemma {:induction false} RunsKeepFrames(c: Config, events: seq<Event>)
    requires Invariant(c) && LegalRun(c, events)
    ensures Invariant(After(c, events))
    ensures Floor(After(c, events)) == Floor(c)
    decreases |events|
  {
    if events != [] {
      StepKeeps(c, events[0]);
      FloorFixed(c, events[0]);
      RunsKeepFrames(Next(c, events[0]), events[1..]);
    }
  }

  /** LIFO: after any run from an empty stack, however nested, the block of a pop lies in memory, and the
      pop gives each listed register the value it had at the push of the frame now on top and changes no memory. */
  lemma PopRestores(c: Config, events: seq<Event>, pop: Event)
    requires c.frames == [] && LegalRun(c, events)
    requires pop.Pop? && Legal(After(c, events), pop)
    ensures BlockInBounds(StateAt(After(c, events), pop), pop.ins)
    ensures Restores(After(c, events), pop)
  {
    RunsKeepFrames(c, events);
    TopIsRestored(After(c, events), pop);
  }

  ghost predicate Restores(d: Config, pop: Event)
    requires pop.Pop? && Legal(d, pop) && BlockInBounds(StateAt(d, pop), pop.ins)
  {
    var top, t := d.frames[|d.frames| - 1], Execute(StateAt(d, pop), pop.ins);
    && t.mem == d.mem == Next(d, pop).mem
    && |top.regs| == |t.regs| == SLOTS
    && forall r: nat :: r < 16 && Bit(top.list, r) == 1 ==> t.regs[r] == top.regs[r]
  }

  lemma FrameLoaded(s: State, ldm: word, f: Frame)
    requires s.Valid() && IsLdm(ldm) && Passes(s, ldm) && RegisterList(ldm) == f.list
    requires FrameHeld(s.mem, s.be, BlockStart(s, ldm), f)
    ensures BlockInBounds(s, ldm)
    ensures var t := Execute(s, ldm);
            && t.mem == s.mem && |t.regs| == SLOTS
            && forall r: nat :: r < 16 && Bit(f.list, r) == 1 ==> t.regs[r] == f.regs[r]
  {
    LdmEffect(s, ldm);
    forall r: nat | r < 16 && Bit(f.list, r) == 1
      ensures Execute(s, ldm).regs[r] == f.regs[r]
    {
      assert WordAddress(s, ldm, r) == Slot(f.list, BlockStart(s, ldm), r);
    }
  }

  lemma TopIsRestored(d: Config, pop: Event)
    requires Invariant(d) && pop.Pop? && Legal(d, pop)
    ensures BlockInBounds(StateAt(d, pop), pop.ins)
    ensures Restores(d, pop)
  {
    var top := d.frames[|d.frames| - 1];
    assert FrameHeld(d.mem, d.be, d.sp, top);
    FrameLoaded(StateAt(d, pop), pop.ins, top);
  }

  /** When every frame has been popped, the stack pointer is back where the run began. */
  lemma EmptiedStackIsBack(c: Config, events: seq<Event>)
    requires c.frames == [] && LegalRun(c, events) && After(c, events).frames == []
    ensures After(c, events).sp == c.sp
  {
    RunsKeepFrames(c, events);
  }
}
