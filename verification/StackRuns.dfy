/** The stack discipline in runs of the machine: each STM the program uses as a push and each LDM it uses as a
    pop is one event, and every other store is as many writes as it makes. */
module StackRuns {
  import opened Bits
  import opened Memory
  import opened MemoryMap
  import opened Registers
  import opened ArmCore
  import opened Conditions
  import opened Fields
  import opened LoadStoreMultiple
  import LS = LoadStore
  import opened FlagProperties
  import M = Machine
  import opened Stack

  /** What the program uses a step for. */
  datatype Role = AsPush | AsPop | AsOther

  // ----- The events of a run -----

  /** The word writes of an STM, register by register. */
  function Pokes(regs: seq<word>, list: half, start: word, i: nat): seq<Event>
    requires |regs| == SLOTS && i <= 16
    decreases i
  {
    if i == 0 then []
    else
      Pokes(regs, list, start, i - 1) +
      if Bit(list, i - 1) == 1 then [Poke(Write(W32, Slot(list, start, i - 1), ReadReg(regs, i - 1)))] else []
  }

  function Writes(f: State, ins: word): seq<Event>
    requires M.Executable(f, ins)
  {
    if Class(ins) == 4 && LBit(ins) == 0 && Passes(f, ins) then
      Pokes(f.regs, RegisterList(ins), BlockStart(f, ins), 16)
    else if (Class(ins) == 2 || Class(ins) == 3) && LBit(ins) == 0 then
      [Poke(Write(LS.AccessWidth(ins), LS.EffectiveAddress(f.regs, ins), LS.StoredValue(f.regs, ins)))]
    else []
  }

  function StepEvents(s: State, role: Role): seq<Event>
    requires M.CanStep(s)
  {
    var f, ins := M.Fetched(s), M.Instruction(s);
    match role
    case AsPush => [Push(f.regs, f.mode, ins)]
    case AsPop => [Pop(f.regs, f.mode, ins)]
    case AsOther => Writes(f, ins)
  }

  // ----- One event list after another -----

  lemma {:induction false} RunsAppend(c: Config, a: seq<Event>, b: seq<Event>)
    requires LegalRun(c, a + b)
    ensures LegalRun(c, a) && LegalRun(After(c, a), b)
    ensures After(c, a + b) == After(After(c, a), b)
    decreases |a|
  {
    if a == [] {
      assert a + b == b;
    } else {
      assert (a + b)[0] == a[0] && (a + b)[1..] == a[1..] + b;
      RunsAppend(Next(c, a[0]), a[1..], b);
    }
  }

  lemma LastEvent(c: Config, a: seq<Event>, e: Event)
    requires LegalRun(c, a + [e])
    ensures LegalRun(c, a) && Legal(After(c, a), e) && After(c, a + [e]) == Next(After(c, a), e)
  {
    RunsAppend(c, a, [e]);
    assert [e][1..] == [];
  }

  lemma LastPoke(c: Config, a: seq<Event>, w: Write)
    requires LegalRun(c, a + [Poke(w)])
    ensures LegalRun(c, a)
    ensures After(c, a + [Poke(w)]) == After(c, a).(mem := Store(After(c, a).mem, After(c, a).be, w.w, w.a, w.v))
  {
    LastEvent(c, a, Poke(w));
  }

  lemma OneEvent(c: Config, e: Event)
    requires LegalRun(c, [e])
    ensures Legal(c, e) && After(c, [e]) == Next(c, e)
  {
    assert [e][1..] == [];
  }

  lemma {:induction false} PokesStore(c: Config, regs: seq<word>, list: half, start: word, i: nat)
    requires |regs| == SLOTS && i <= 16 && LegalRun(c, Pokes(regs, list, start, i))
    ensures After(c, Pokes(regs, list, start, i)) == c.(mem := StmMem(c.mem, c.be, regs, list, start, i))
    decreases i
  {
    if i > 0 {
      var front := Pokes(regs, list, start, i - 1);
      if Bit(list, i - 1) == 1 {
        var w := Write(W32, Slot(list, start, i - 1), ReadReg(regs, i - 1));
        assert Pokes(regs, list, start, i) == front + [Poke(w)];
        LastPoke(c, front, w);
      } else {
        assert Pokes(regs, list, start, i) == front;
      }
      PokesStore(c, regs, list, start, i - 1);
    }
  }

  // ----- One step -----

  lemma KeepsByteOrder(f: State, ins: word)
    requires M.Executable(f, ins)
    ensures M.Dispatch(f, ins).Returned? ==> M.Dispatch(f, ins).value.state.be == f.be
  {
    if M.IsDataProcessing(ins) {
      ProcessFrame(f, ins);
    } else if 2 <= Class(ins) <= 4 {
      M.TransfersConfined(f, ins);
    } else {
      M.OthersConfined(f, ins);
    }
  }

  /** The configuration goes along with the machine. */
  predicate Tracks(d: Config, s: State) {
    d.mem == s.mem && d.be == s.be
  }

  lemma WritesFollow(f: State, ins: word, d: Config)
    requires M.Executable(f, ins) && M.Dispatch(f, ins).Returned? && Tracks(d, f)
    requires LegalRun(d, Writes(f, ins))
    ensures var t := M.Dispatch(f, ins).value.state;
            After(d, Writes(f, ins)) == d.(mem := t.mem)
  {
    if Class(ins) == 4 && LBit(ins) == 0 && Passes(f, ins) {
      PokesStore(d, f.regs, RegisterList(ins), BlockStart(f, ins), 16);
    } else if (Class(ins) == 2 || Class(ins) == 3) && LBit(ins) == 0 {
      OneEvent(d, Writes(f, ins)[0]);
    } else {
      NoStore(f, ins);
    }
  }

  lemma NoStore(f: State, ins: word)
    requires M.Executable(f, ins) && M.Dispatch(f, ins).Returned?
    requires !(2 <= Class(ins) <= 3 && LBit(ins) == 0) && !(Class(ins) == 4 && LBit(ins) == 0 && Passes(f, ins))
    ensures M.Dispatch(f, ins).value.state.mem == f.mem
  {
    if !M.IsStoreWord(ins) {
      M.OnlyStoresChangeMemory(f, ins);
    }
  }

  lemma BlockStep(s: State, t: State)
    requires M.StepsTo(s, t) && Class(M.Instruction(s)) == 4
    ensures t == Execute(M.Fetched(s), M.Instruction(s))
  {
  }

  lemma BlockFollows(s: State, t: State, role: Role, d: Config)
    requires M.StepsTo(s, t) && Tracks(d, s) && role != AsOther && Class(M.Instruction(s)) == 4
    requires LegalRun(d, StepEvents(s, role))
    ensures Tracks(After(d, StepEvents(s, role)), t)
  {
    var e := StepEvents(s, role)[0];
    BlockStep(s, t);
    OneEvent(d, e);
    assert StateAt(d, e) == M.Fetched(s);
  }

  /** Whatever its role, a step leaves in memory what its events do. */
  lemma StepFollows(s: State, t: State, role: Role, d: Config)
    requires M.StepsTo(s, t) && Tracks(d, s) && (role != AsOther ==> Class(M.Instruction(s)) == 4)
    requires LegalRun(d, StepEvents(s, role))
    ensures Tracks(After(d, StepEvents(s, role)), t)
  {
    var f, ins := M.Fetched(s), M.Instruction(s);
    KeepsByteOrder(f, ins);
    if role == AsOther {
      WritesFollow(f, ins, d);
    } else {
      BlockFollows(s, t, role, d);
    }
  }

  // ----- Whole runs -----

  /** Step k of the run, with its role, takes one configuration to the next by legal events. */
  ghost predicate StepAlong(states: seq<State>, roles: seq<Role>, configs: seq<Config>, k: nat)
    requires k < |roles| && k + 1 < |states| && k + 1 < |configs|
  {
    && M.StepsTo(states[k], states[k + 1])
    && (roles[k] != AsOther ==> Class(M.Instruction(states[k])) == 4)
    && LegalRun(configs[k], StepEvents(states[k], roles[k]))
    && configs[k + 1] == After(configs[k], StepEvents(states[k], roles[k]))
  }

  /** A run of the machine whose program keeps the stack discipline at every step, from an empty stack on. */
  ghost predicate Disciplined(states: seq<State>, roles: seq<Role>, configs: seq<Config>) {
    && |states| == |configs| == |roles| + 1
    && Tracks(configs[0], states[0]) && configs[0].frames == []
    && forall k: nat :: k < |roles| ==> StepAlong(states, roles, configs, k)
  }

  lemma TracksStep(states: seq<State>, roles: seq<Role>, configs: seq<Config>, k: nat)
    requires Disciplined(states, roles, configs) && k < |roles|
    requires Tracks(configs[k], states[k]) && Invariant(configs[k])
    ensures Tracks(configs[k + 1], states[k + 1]) && Invariant(configs[k + 1])
  {
    assert StepAlong(states, roles, configs, k);
    StepFollows(states[k], states[k + 1], roles[k], configs[k]);
    RunsKeepFrames(configs[k], StepEvents(states[k], roles[k]));
  }

  /** At every point of the run the stack's memory is the machine's, and every live frame lies in it. */
  lemma {:induction false} RunTracks(states: seq<State>, roles: seq<Role>, configs: seq<Config>, k: nat)
    requires Disciplined(states, roles, configs) && k <= |roles|
    ensures Tracks(configs[k], states[k]) && Invariant(configs[k])
    decreases k
  {
    if k > 0 {
      RunTracks(states, roles, configs, k - 1);
      TracksStep(states, roles, configs, k - 1);
    }
  }

  /** A push opens a step, a pop closes the latest. */
  function Opened(js: seq<nat>, role: Role, k: nat): seq<nat> {
    match role
    case AsPush => js + [k]
    case AsPop => if js == [] then [] else js[..|js| - 1]
    case AsOther => js
  }

  /** The steps whose pushes have not been popped after the first k steps, the latest last. */
  function Open(roles: seq<Role>, k: nat): (js: seq<nat>)
    requires k <= |roles|
    ensures forall i :: 0 <= i < |js| ==> js[i] < k && roles[js[i]] == AsPush
    decreases k
  {
    if k == 0 then [] else Opened(Open(roles, k - 1), roles[k - 1], k - 1)
  }

  /** The frame that a push makes in the step from `s`. */
  function FrameOf(s: State): Frame {
    if M.CanStep(s) then Frame(RegisterList(M.Instruction(s)), M.Fetched(s).regs) else Frame(0, [])
  }

  /** The frames of the pushes at the steps listed. */
  function FramesOf(states: seq<State>, js: seq<nat>): (frames: seq<Frame>)
    ensures |frames| == |js|
    ensures forall i :: 0 <= i < |js| ==> frames[i] == FrameAt(states, js[i])
  {
    seq(|js|, i requires 0 <= i < |js| => FrameAt(states, js[i]))
  }

  function FrameAt(states: seq<State>, j: nat): Frame {
    if j < |states| then FrameOf(states[j]) else Frame(0, [])
  }

  lemma FramesStep(s: State, t: State, role: Role, d: Config)
    requires M.StepsTo(s, t) && Tracks(d, s) && (role != AsOther ==> Class(M.Instruction(s)) == 4)
    requires LegalRun(d, StepEvents(s, role))
    ensures role == AsPop ==> d.frames != []
    ensures After(d, StepEvents(s, role)).frames ==
            match role
            case AsPush => d.frames + [Frame(RegisterList(M.Instruction(s)), M.Fetched(s).regs)]
            case AsPop => d.frames[..|d.frames| - 1]
            case AsOther => d.frames
  {
    match role
    case AsOther =>
      WritesFollow(M.Fetched(s), M.Instruction(s), d);
    case _ =>
      OneEvent(d, StepEvents(s, role)[0]);
  }

  lemma OpenedFrames(states: seq<State>, js: seq<nat>, role: Role, k: nat)
    requires k < |states|
    ensures FramesOf(states, Opened(js, role, k)) ==
            match role
            case AsPush => FramesOf(states, js) + [FrameOf(states[k])]
            case AsPop => if js == [] then [] else FramesOf(states, js)[..|js| - 1]
            case AsOther => FramesOf(states, js)
  {
  }

  lemma OpenStep(states: seq<State>, roles: seq<Role>, configs: seq<Config>, js: seq<nat>, k: nat)
    requires Disciplined(states, roles, configs) && k < |roles|
    requires configs[k].frames == FramesOf(states, js)
    ensures configs[k + 1].frames == FramesOf(states, Opened(js, roles[k], k))
  {
    RunTracks(states, roles, configs, k);
    assert StepAlong(states, roles, configs, k);
    FramesStep(states[k], states[k + 1], roles[k], configs[k]);
    OpenedFrames(states, js, roles[k], k);
  }

  /** The live frames are those of the open pushes. */
  lemma {:induction false} RunOpens(states: seq<State>, roles: seq<Role>, configs: seq<Config>, k: nat)
    requires Disciplined(states, roles, configs) && k <= |roles|
    ensures configs[k].frames == FramesOf(states, Open(roles, k))
    decreases k
  {
    if k > 0 {
      RunOpens(states, roles, configs, k - 1);
      OpenStep(states, roles, configs, Open(roles, k - 1), k - 1);
    }
  }

  /** `u` has in every listed register what `s` had before its block transfer, which named the same list as
      that of `t`. */
  ghost predicate Restored(s: State, t: State, u: State) {
    && M.CanStep(s) && M.CanStep(t) && |u.regs| == SLOTS
    && RegisterList(M.Instruction(s)) == RegisterList(M.Instruction(t))
    && forall r: nat :: r < 16 && Bit(RegisterList(M.Instruction(t)), r) == 1 ==> u.regs[r] == s.regs[r]
  }

  /** In every run of the machine that keeps the discipline, whatever it does in between, an LDM used as a pop
      gives each register of its list the value it had before the STM of the push it matches, which named the
      same list. */
  lemma MachinePopRestores(states: seq<State>, roles: seq<Role>, configs: seq<Config>, k: nat)
    requires Disciplined(states, roles, configs) && k < |roles| && roles[k] == AsPop
    ensures Open(roles, k) != []
    ensures var js := Open(roles, k);
            var j := js[|js| - 1];
            j < k && roles[j] == AsPush && Restored(states[j], states[k], states[k + 1])
  {
    RunOpens(states, roles, configs, k);
    PopAt(states, roles, configs, k);
    var js := Open(roles, k);
    var n, j := |js| - 1, js[|js| - 1];
    CanStepAt(states, roles, configs, j);
    assert configs[k].frames[n] == FrameOf(states[j]);
    PopBack(states, roles, configs, k, states[j], n);
  }

  lemma CanStepAt(states: seq<State>, roles: seq<Role>, configs: seq<Config>, k: nat)
    requires Disciplined(states, roles, configs) && k < |roles|
    ensures M.CanStep(states[k])
  {
    assert StepAlong(states, roles, configs, k);
  }

  /** The frame on top is back in the registers after the pop. */
  ghost predicate TopBack(frames: seq<Frame>, t: State, u: State) {
    && frames != [] && M.CanStep(t) && |u.regs| == SLOTS
    && var top := frames[|frames| - 1];
    && top.list == RegisterList(M.Instruction(t)) && |top.regs| == SLOTS && Bit(top.list, 15) == 0
    && forall r: nat :: r < 16 && Bit(top.list, r) == 1 ==> u.regs[r] == top.regs[r]
  }

  lemma PopAt(states: seq<State>, roles: seq<Role>, configs: seq<Config>, k: nat)
    requires Disciplined(states, roles, configs) && k < |roles| && roles[k] == AsPop
    ensures configs[k].frames != [] && TopBack(configs[k].frames, states[k], states[k + 1])
  {
    RunTracks(states, roles, configs, k);
    assert StepAlong(states, roles, configs, k);
    PopStep(states[k], states[k + 1], configs[k]);
  }

  lemma PopBack(states: seq<State>, roles: seq<Role>, configs: seq<Config>, k: nat, s: State,
                n: nat)
    requires Disciplined(states, roles, configs) && k < |roles| && roles[k] == AsPop
    requires M.CanStep(s) && |configs[k].frames| == n + 1 && configs[k].frames[n] == FrameOf(s)
    ensures Restored(s, states[k], states[k + 1])
  {
    PopAt(states, roles, configs, k);
    FrameBack(configs[k].frames, s, states[k], states[k + 1]);
  }

  lemma FrameBack(frames: seq<Frame>, s: State, t: State, u: State)
    requires TopBack(frames, t, u) && M.CanStep(s) && frames[|frames| - 1] == FrameOf(s)
    ensures Restored(s, t, u)
  {
  }

  lemma PopStep(s: State, t: State, d: Config)
    requires M.StepsTo(s, t) && Tracks(d, s) && Invariant(d) && Class(M.Instruction(s)) == 4
    requires LegalRun(d, StepEvents(s, AsPop))
    ensures TopBack(d.frames, s, t)
  {
    var pop := StepEvents(s, AsPop)[0];
    OneEvent(d, pop);
    BlockStep(s, t);
    assert StateAt(d, pop) == M.Fetched(s);
    TopIsRestored(d, pop);
  }
}
