/** Whole runs of the structured machine: what calls leave alone, and when the stack is safe. */
module MachineRuns {
  import opened Bytes
  import opened ExtraReport
  import opened StackMachine
  import opened FrameLayout

  /** What happens to a running program: the interpreter steps it, or a report is filled from it. */
  datatype Tick = Instruction(env: Input, stale: seq<Byte>) | ReportSent | MouseReportSent

  ghost predicate CanTick(p: Program, m: Machine, t: Tick) {
    && Rooted(m.frames) && !Halted(m.status)
    && (t.Instruction? ==> (Executes(m, t.env) ==> Safe(p, m)) && |t.stale| == StaleAt(p, m, t.env))
  }

  ghost function Next(p: Program, m: Machine, t: Tick): Machine
    requires CanTick(p, m, t)
  {
    match t
    case Instruction(env, stale) => Step(p, m, env, stale)
    case ReportSent => ReportFilled(m)
    case MouseReportSent => MouseReportFilled(m)
  }

  ghost predicate Trace(p: Program, ticks: seq<Tick>, ms: seq<Machine>) {
    && |ms| == |ticks| + 1
    && forall i :: 0 <= i < |ticks| ==> CanTick(p, ms[i], ticks[i]) && ms[i + 1] == Next(p, ms[i], ticks[i])
  }

  lemma {:induction false} TraceExtended(p: Program, ticks: seq<Tick>, ms: seq<Machine>, t: Tick)
    requires Trace(p, ticks, ms) && CanTick(p, ms[|ticks|], t)
    ensures Trace(p, ticks + [t], ms + [Next(p, ms[|ticks|], t)])
  {
    hide Next, CanTick;
  }

  /** What drives a machine, without the stale bytes a call happens to find. */
  datatype Event = Cycle(env: Input) | Report | MouseReport

  function TickOf(e: Event, stale: seq<Byte>): Tick {
    match e
    case Cycle(env) => Instruction(env, stale)
    case Report => ReportSent
    case MouseReport => MouseReportSent
  }

  /** Whatever stale bytes calls find, the program keeps to its own part of the stack until it halts. */
  ghost predicate SafeRun(p: Program, m: Machine, events: seq<Event>)
    decreases |events|
  {
    events == [] || Halted(m.status)
    || (CanRun(p, m, events[0])
        && forall stale :: CanTick(p, m, TickOf(events[0], stale)) ==>
             SafeRun(p, Next(p, m, TickOf(events[0], stale)), events[1..]))
  }

  ghost predicate CanRun(p: Program, m: Machine, e: Event) {
    Rooted(m.frames) && (e.Cycle? ==> (Executes(m, e.env) ==> Safe(p, m)))
  }

  /** Whether a tick executes an instruction. */
  ghost predicate Runs(p: Program, m: Machine, t: Tick) {
    CanTick(p, m, t) && t.Instruction? && Executes(m, t.env)
  }

  // ---- what one tick does to the frames ----

  /** Only the locals and operands of the last frame may differ. */
  ghost predicate SameBelow(fs: seq<Frame>, gs: seq<Frame>)
    requires fs != []
  {
    |gs| == |fs| && gs[..|fs| - 1] == fs[..|fs| - 1] && Ret(gs) == Ret(fs)
  }

  lemma WithOpsSame(fs: seq<Frame>, ops: seq<Byte>)
    requires fs != []
    ensures SameBelow(fs, WithOps(fs, ops))
  {
  }

  lemma SystemSame(m: Machine, i: Instr, env: Input)
    requires SystemInstr(i) && m.frames != [] && Pops(i) <= |Operands(m)|
    ensures SameBelow(m.frames, SystemCall(m, i, env).frames)
  {
    hide TopByte, TopWord, Drop, WithOps, SameBelow, Ops, Signed16, WordBytes, Pressed, Released;
    SystemOnOps(m, i, env);
    WithOpsSame(m.frames, Ops(SystemCall(m, i, env).frames));
  }

  lemma SystemOnOps(m: Machine, i: Instr, env: Input)
    requires SystemInstr(i) && m.frames != [] && Pops(i) <= |Operands(m)|
    ensures var fs := SystemCall(m, i, env).frames; fs != [] && fs == WithOps(m.frames, Ops(fs))
  {
    hide TopByte, TopWord, Drop, Signed16, WordBytes, Pressed, Released;
  }

  lemma ValuedSame(p: Program, m: Machine, i: Instr)
    requires i.Local? || i.Global? || i.Const?
    requires m.ip >= 1 && Safe(p, m.(ip := m.ip - 1)) && i == InstrAt(p, m.ip - 1)
    ensures SameBelow(m.frames, Valued(p, m, i).frames)
  {
    hide Drop, StoreIn, LoadFrom, ConstBytes, Decode, Top, Defined;
  }

  /** The method a call calls. */
  function Callee(p: Program, m: Machine): (callee: Method)
    requires Supplied(p, m) && InstrAt(p, m.ip).Call?
    ensures callee.nargs as int <= |Ops(m.frames)| && callee.nargs <= callee.nlocals
  {
    MethodOf(p, p.storage[m.ip + 1])
  }

  ghost predicate CallMade(p: Program, m: Machine, stale: seq<Byte>, next: Machine)
    requires Safe(p, m)
  {
    && InstrAt(p, m.ip).Call?
    && next.frames == CallFrames(m.frames, Callee(p, m).nargs, m.ip + 2, stale)
    && next.ip == Wrap16(CodeStart(p) + Callee(p, m).offset)
  }

  ghost predicate ReturnMade(p: Program, m: Machine, next: Machine)
    requires Safe(p, m)
  {
    && InstrAt(p, m.ip).Return? && |m.frames| > 1 && InstrAt(p, m.ip).width <= |Ops(m.frames)|
    && next.frames == ReturnFrames(m.frames, InstrAt(p, m.ip).width) && next.ip == Ret(m.frames)
  }

  lemma ControlFrames(p: Program, m: Machine, stale: seq<Byte>)
    requires Safe(p, m) && Rooted(m.frames)
    requires var i := InstrAt(p, m.ip); i.Branch? || i.Goto? || i.Call? || i.Return? || i.Exit? || i.Nop?
    ensures var next := Continued(p, m.(ip := m.ip + 1), InstrAt(p, m.ip), stale);
            SameBelow(m.frames, next.frames) || CallMade(p, m, stale, next) || ReturnMade(p, m, next)
  {
    hide Drop, Decode, Top, Defined, Satisfies, TopByte, Jump, CallFrames, ReturnFrames;
    RootedKept(m.frames, [], []);
    WithOpsSame(m.frames, Drop(Ops(m.frames), 0));
  }

  lemma ExecutedFrames(p: Program, m: Machine, env: Input, stale: seq<Byte>)
    requires Safe(p, m) && Rooted(m.frames)
    ensures var next := Executed(p, m, env, stale);
            SameBelow(m.frames, next.frames) || CallMade(p, m, stale, next) || ReturnMade(p, m, next)
  {
    hide Decode, Top, Defined, SystemCall, Valued, Continued, Computed, CallMade, ReturnMade, SameBelow, Pops,
         Pushes, Immediates;
    var i, next := InstrAt(p, m.ip), m.(ip := m.ip + 1);
    assert next.(ip := next.ip - 1) == m;
    if OnOperands(i) {
      WithOpsSame(m.frames, Computed(i, Operands(m)));
    } else if SystemInstr(i) {
      SystemSame(next, i, env);
    } else if i.Local? || i.Global? || i.Const? {
      ValuedSame(p, next, i);
    } else {
      ControlFrames(p, m, stale);
    }
  }

  /** A tick leaves all frames below the last one alone, unless it executes a call or a return. */
  lemma TickFrames(p: Program, m: Machine, t: Tick)
    requires CanTick(p, m, t)
    ensures var next := Next(p, m, t);
            || SameBelow(m.frames, next.frames)
            || (Runs(p, m, t) && CallMade(p, m, t.stale, next))
            || (Runs(p, m, t) && ReturnMade(p, m, next))
  {
    hide Decode, Top, Executed, Safe, InstrAt, StaleLocals, Waited, CallMade, ReturnMade, SameBelow, Rooted;
    FramesKept(m.frames);
    if t.Instruction? {
      if Executes(m, t.env) {
        RunningNow(p, m);
        ExecutedFrames(p, RunningAgain(m), t.env, t.stale);
        RunningMade(p, m, t.stale, Executed(p, RunningAgain(m), t.env, t.stale));
      } else {
        WaitedFrames(m, t.env);
      }
    }
  }

  lemma FramesKept(fs: seq<Frame>)
    requires Rooted(fs)
    ensures fs != [] && SameBelow(fs, fs)
  {
  }

  lemma WaitedFrames(m: Machine, env: Input)
    requires m.frames != []
    ensures SameBelow(m.frames, Waited(m, env).frames)
  {
  }

  lemma RunningMade(p: Program, m: Machine, stale: seq<Byte>, next: Machine)
    requires Safe(p, m) && Safe(p, RunningAgain(m))
    ensures CallMade(p, RunningAgain(m), stale, next) ==> CallMade(p, m, stale, next)
    ensures ReturnMade(p, RunningAgain(m), next) ==> ReturnMade(p, m, next)
  {
    hide Decode, Top, CallFrames, ReturnFrames, Defined;
  }

  /** A delay that has run out. */
  function RunningAgain(m: Machine): Machine {
    if m.status.Delaying? then m.(status := Running, delayEnd := 0) else m
  }

  lemma RunningNow(p: Program, m: Machine)
    requires Safe(p, m)
    ensures Safe(p, RunningAgain(m)) && RunningAgain(m).frames == m.frames && RunningAgain(m).ip == m.ip
  {
  }

  // ---- calls over whole runs ----

  /** The first d frames, and where frame d returns to. */
  ghost predicate LowerSame(fs: seq<Frame>, gs: seq<Frame>, d: nat)
    requires d < |fs| && d < |gs|
  {
    fs[..d] == gs[..d] && fs[d].ret == gs[d].ret
  }

  lemma TickKeepsLower(p: Program, m: Machine, t: Tick, d: nat)
    requires CanTick(p, m, t) && d < |m.frames| && d < |Next(p, m, t).frames|
    ensures LowerSame(m.frames, Next(p, m, t).frames, d)
  {
    hide Next, Drop;
    var fs, gs := m.frames, Next(p, m, t).frames;
    TickFrames(p, m, t);
    if SameBelow(fs, gs) {
      assert fs[..d] == fs[..|fs| - 1][..d] && gs[..d] == gs[..|fs| - 1][..d];
      if d < |fs| - 1 { assert fs[d] == fs[..|fs| - 1][d]; }
    }
  }

  /** Through any run that stays above them, frames keep their locals, operands and return addresses. */
  lemma {:induction false} RunKeepsLower(p: Program, ticks: seq<Tick>, ms: seq<Machine>, i: nat, j: nat, d: nat)
    requires Trace(p, ticks, ms) && i <= j <= |ticks|
    requires forall k :: i <= k <= j ==> d < |ms[k].frames|
    ensures LowerSame(ms[i].frames, ms[j].frames, d)
    decreases j
  {
    hide Next;
    if i < j {
      RunKeepsLower(p, ticks, ms, i, j - 1, d);
      assert ms[(j - 1) + 1] == Next(p, ms[j - 1], ticks[j - 1]);
      TickKeepsLower(p, ms[j - 1], ticks[j - 1], d);
    }
  }

  /** The only tick that takes frames away is a return, and it takes one. */
  lemma ShrinkingTick(p: Program, m: Machine, t: Tick)
    requires CanTick(p, m, t) && |Next(p, m, t).frames| < |m.frames|
    ensures Runs(p, m, t) && ReturnMade(p, m, Next(p, m, t)) && |Next(p, m, t).frames| == |m.frames| - 1
  {
    hide Next, Drop;
    TickFrames(p, m, t);
  }

  /**
   * A call, any run of the called method with whatever it calls in turn, and the return from it:
   * the caller's frame, locals and other operands are as they were, the argument bytes have been
   * replaced by the result, and execution goes on behind the call.
   */
  lemma CallThenReturn(p: Program, ticks: seq<Tick>, ms: seq<Machine>, n: nat)
    requires Trace(p, ticks, ms) && n == |ticks| >= 2
    requires Runs(p, ms[0], ticks[0]) && InstrAt(p, ms[0].ip).Call?
    requires forall k :: 1 <= k < n ==> |ms[k].frames| > |ms[0].frames|
    requires |ms[n].frames| <= |ms[0].frames|
    ensures InstrAt(p, ms[n - 1].ip).Return? && InstrAt(p, ms[n - 1].ip).width <= |Ops(ms[n - 1].frames)|
    ensures var fs, left, width := ms[0].frames, Ops(ms[n - 1].frames), InstrAt(p, ms[n - 1].ip).width;
            && ms[n].ip == ms[0].ip + 2
            && ms[n].frames == WithOps(fs, Drop(Ops(fs), Callee(p, ms[0]).nargs) + left[|left| - width..])
  {
    hide Next, Decode, Supplied, Growth, Top, Callee, InstrAt, StaleLocals;
    var fs, d := ms[0].frames, |ms[0].frames|;
    RunningNow(p, ms[0]);
    NextIsExecuted(p, ms[0], ticks[0]);
    ExecutedCall(p, RunningAgain(ms[0]), ticks[0].env, ticks[0].stale);
    RunningMade(p, ms[0], ticks[0].stale, ms[1]);
    StaleOfCall(p, ms[0], ticks[0]);
    CallFacts(p, ms[0], ticks[0].stale, ms[1]);
    RunKeepsLower(p, ticks, ms, 1, n - 1, d);
    ShrinkingTick(p, ms[n - 1], ticks[n - 1]);
    assert ms[n - 1].frames[..d] == ms[1].frames[..d] == WithOps(fs, Drop(Ops(fs), Callee(p, ms[0]).nargs));
  }

  /** An instruction is executed as if its machine had never been delayed. */
  lemma NextIsExecuted(p: Program, m: Machine, t: Tick)
    requires Runs(p, m, t)
    ensures Safe(p, RunningAgain(m)) && Next(p, m, t) == Executed(p, RunningAgain(m), t.env, t.stale)
  {
    hide Supplied, Growth, Top, Executed;
    RunningNow(p, m);
  }

  lemma StaleOfCall(p: Program, m: Machine, t: Tick)
    requires Runs(p, m, t) && InstrAt(p, m.ip).Call?
    ensures |t.stale| == Callee(p, m).nlocals as int - Callee(p, m).nargs as int
  {
    hide Decode, Top, Supplied, Growth;
  }

  lemma ExecutedCall(p: Program, m: Machine, env: Input, stale: seq<Byte>)
    requires Safe(p, m) && Rooted(m.frames) && InstrAt(p, m.ip).Call?
    ensures CallMade(p, m, stale, Executed(p, m, env, stale))
  {
    hide Decode, Top, CallFrames, MethodAt, CodeStart, Wrap16;
  }

  /** Argument i is the callee's local i, and its other locals are whatever was on the stack. */
  lemma CallFacts(p: Program, m: Machine, stale: seq<Byte>, next: Machine)
    requires Safe(p, m) && CallMade(p, m, stale, next)
    requires |stale| == Callee(p, m).nlocals as int - Callee(p, m).nargs as int
    ensures var n, ops, gs := Callee(p, m).nargs, Ops(m.frames), next.frames;
            && |gs| == |m.frames| + 1 && Ops(gs) == [] && Ret(gs) == m.ip + 2
            && n as int <= |Locals(gs)| == Callee(p, m).nlocals as int && Locals(gs)[..n] == ops[|ops| - n..]
            && gs[..|m.frames|] == WithOps(m.frames, Drop(ops, n))
  {
    hide Decode, Top, Safe, Callee, Drop;
    CalleeArgs(p, m);
  }

  lemma CalleeArgs(p: Program, m: Machine)
    requires Safe(p, m) && InstrAt(p, m.ip).Call?
    ensures m.frames != [] && Callee(p, m).nargs as int <= |Ops(m.frames)| && Callee(p, m).nargs <= Callee(p, m).nlocals
  {
  }

  // ---- waiting for a report ----

  /** Pressing an ordinary key or a modifier puts it among the machine's keys and waits for a report. */
  lemma PressWaits(p: Program, m: Machine, t: Tick)
    requires Runs(p, m, t) && InstrAt(p, m.ip).PressKey?
    ensures |Ops(m.frames)| >= 1
    ensures var key, next := TopByte(Ops(m.frames), 0), Next(p, m, t);
            next.status.WaitReport? <==> key < SPECIAL_KEYS
    ensures var key, next := TopByte(Ops(m.frames), 0), Next(p, m, t);
            next.side == if key < SPECIAL_KEYS then Pressed(m.side, key) else m.side
  {
    hide Decode, Top, Pressed, TopByte, Drop, WithOps;
    RunningNow(p, m);
  }

  lemma StillWaiting(p: Program, m: Machine, t: Tick)
    requires CanTick(p, m, t) && m.status.WaitReport?
    ensures !Runs(p, m, t)
    ensures !t.ReportSent? ==> Next(p, m, t) == m || Halted(Next(p, m, t).status)
  {
    hide Safe, Executed, Top, StaleLocals;
  }

  /**
   * Between a tick after which the machine waits for a report and the next instruction it
   * executes, a report is filled while its keys are still the same.
   */
  lemma {:induction false} ReportBeforeNextInstruction(p: Program, ticks: seq<Tick>, ms: seq<Machine>, i: nat, j: nat)
    returns (k: nat)
    requires Trace(p, ticks, ms) && i <= j < |ticks| && ms[i].status.WaitReport? && Runs(p, ms[j], ticks[j])
    ensures i <= k < j && ticks[k].ReportSent? && ms[k] == ms[i]
    decreases j - i
  {
    hide Next, Safe, Rooted, Top, StaleLocals;
    StillWaiting(p, ms[i], ticks[i]);
    if ticks[i].ReportSent? {
      k := i;
    } else {
      assert CanTick(p, ms[i + 1], ticks[i + 1]);
      k := ReportBeforeNextInstruction(p, ticks, ms, i + 1, j);
    }
  }

  // ---- the overflow check ----

  /** Instructions that leave two more bytes on the stack than they found. */
  predicate GrowsByShort(i: Instr) {
    || (i.Local? && !i.store && i.wide) || (i.Global? && !i.store && i.wide) || (i.Const? && i.wide)
    || (i.Dup? && i.wide) || i.Uptime?
  }

  lemma TopIs(m: Machine)
    requires m.frames != []
    ensures Top(m) == |m.globals| + FrameStart(m.frames, |m.frames| - 1)
                      + HEADER + |Locals(m.frames)| + |Ops(m.frames)|
  {
  }

  /** Only the last frame's operands count when all else is the same. */
  lemma TopMoved(m: Machine, next: Machine)
    requires m.frames != [] && SameBelow(m.frames, next.frames) && |next.globals| == |m.globals|
    requires |Locals(next.frames)| == |Locals(m.frames)|
    ensures Top(next) - Top(m) == |Ops(next.frames)| - |Ops(m.frames)|
  {
    hide FrameStart;
    TopIs(m);
    TopIs(next);
    StartAgrees(m.frames, next.frames, |m.frames| - 1);
  }

  lemma CallGrows(fs: seq<Frame>, n: nat, ret: Word, stale: seq<Byte>)
    requires fs != [] && n <= |Ops(fs)|
    ensures var gs := CallFrames(fs, n, ret, stale);
            FrameStart(gs, |gs|) == FrameStart(fs, |fs|) + |stale| + HEADER + 1
  {
    hide Drop;
    var gs, last := CallFrames(fs, n, ret, stale), |fs| - 1;
    assert |Drop(Ops(fs), n)| == |Ops(fs)| - n by { DropSize(Ops(fs), n); }
    StartAgrees(fs, gs, last);
    assert FrameStart(fs, last + 1) == FrameStart(fs, last) + Size(fs[last]);
    assert FrameStart(gs, last + 1) == FrameStart(gs, last) + Size(gs[last]);
  }

  lemma DropSize(ops: seq<Byte>, n: nat)
    requires n <= |ops|
    ensures |Drop(ops, n)| == |ops| - n
  {
  }

  lemma ReturnShrinks(fs: seq<Frame>, n: nat)
    requires |fs| > 1 && n <= |Ops(fs)|
    ensures var gs := ReturnFrames(fs, n);
            FrameStart(gs, |gs|) == FrameStart(fs, |fs|) + n - Size(fs[|fs| - 1])
  {
    var gs, last := ReturnFrames(fs, n), |fs| - 2;
    StartAgrees(fs, gs, last);
    assert FrameStart(fs, last + 1) == FrameStart(fs, last) + Size(fs[last]);
    assert FrameStart(gs, last + 1) == FrameStart(gs, last) + Size(gs[last]);
  }

  /** The rest of the frame stays while the operands grow. */
  ghost predicate Grew(m: Machine, next: Machine, change: int) {
    && m.frames != [] && SameBelow(m.frames, next.frames) && |next.globals| == |m.globals|
    && |Locals(next.frames)| == |Locals(m.frames)| && |Ops(next.frames)| - |Ops(m.frames)| == change
  }

  lemma ComputedGrows(m: Machine, i: Instr)
    requires m.frames != [] && OnOperands(i) && Pops(i) <= |Operands(m)| && Defined(i, Operands(m))
    ensures Grew(m, WithOperands(m, Computed(i, Operands(m))), Pushes(i) - Pops(i))
  {
    hide BinaryOn, NotOn, CompareOn, ShiftOn, DupOn, SwapOn, WidenOn, NarrowOn, Defined;
  }

  lemma SystemGrows(m: Machine, i: Instr, env: Input)
    requires SystemInstr(i) && m.frames != [] && Pops(i) <= |Operands(m)|
    ensures Grew(m, SystemCall(m, i, env), Pushes(i) - Pops(i))
  {
    hide TopByte, TopWord, Signed16, Pressed, Released, Lo, Hi;
  }

  lemma ValuedGrows(p: Program, m: Machine, i: Instr)
    requires i.Local? || i.Global? || i.Const?
    requires m.ip >= 1 && Safe(p, m.(ip := m.ip - 1)) && i == InstrAt(p, m.ip - 1)
    ensures Grew(m, Valued(p, m, i), Pushes(i) - Pops(i))
  {
    hide Decode, Top, Defined, MakeWord, Lo, Hi;
  }

  lemma ControlGrows(p: Program, m: Machine, stale: seq<Byte>)
    requires Safe(p, m) && Rooted(m.frames) && |stale| == StaleLocals(p, m)
    requires var i := InstrAt(p, m.ip); i.Branch? || i.Goto? || i.Call? || i.Return? || i.Exit? || i.Nop?
    ensures Top(Continued(p, m.(ip := m.ip + 1), InstrAt(p, m.ip), stale)) == Top(m) + Growth(p, m)
  {
    hide Decode, Defined, Satisfies, TopByte, Jump, CallFrames, ReturnFrames, FrameStart;
    RootedKept(m.frames, [], []);
    var i := InstrAt(p, m.ip);
    if i.Call? {
      var callee := MethodOf(p, p.storage[m.ip + 1]);
      CallGrows(m.frames, callee.nargs, m.ip + 2, stale);
    } else if i.Return? && !EndsMain(m, i) {
      ReturnShrinks(m.frames, i.width);
    } else if i.Branch? {
      DropSize(Ops(m.frames), 1);
      TopMoved(m, WithOperands(m, Drop(Ops(m.frames), 1)));
    }
  }

  /** What an executed instruction does to the stack pointer. */
  lemma GrowthIs(p: Program, m: Machine, env: Input, stale: seq<Byte>)
    requires Safe(p, m) && Rooted(m.frames) && |stale| == StaleLocals(p, m)
    ensures Top(Executed(p, m, env, stale)) == Top(m) + Growth(p, m)
  {
    hide Decode, Top, Defined, SystemCall, Valued, Continued, Computed, SameBelow, Pops, Pushes, Immediates;
    var i, next := InstrAt(p, m.ip), m.(ip := m.ip + 1);
    assert next.(ip := next.ip - 1) == m;
    SameTop(m, next);
    if OnOperands(i) {
      ComputedGrows(next, i);
      TopMoved(next, WithOperands(next, Computed(i, Operands(m))));
    } else if SystemInstr(i) {
      SystemGrows(next, i, env);
      TopMoved(next, SystemCall(next, i, env));
    } else if i.Local? || i.Global? || i.Const? {
      ValuedGrows(p, next, i);
      TopMoved(next, Valued(p, next, i));
    } else {
      ControlGrows(p, m, stale);
    }
  }

  lemma SameTop(m: Machine, next: Machine)
    requires m.frames == next.frames && m.globals == next.globals
    ensures Top(m) == Top(next)
  {
  }

  /**
   * A step that has passed the check writes behind the stack exactly when it pushes a short in
   * the very last place or calls a method within six bytes of the end.
   */
  lemma RoomIff(p: Program, m: Machine)
    requires Supplied(p, m) && Top(m) <= STACK_SIZE - 2
    ensures var i := InstrAt(p, m.ip);
            Reach(p, m) >= STACK_SIZE <==>
            if i.Call? then Top(m) >= STACK_SIZE - HEADER else Top(m) == STACK_SIZE - 2 && GrowsByShort(i)
  {
    hide Top, Decode, Defined;
  }

  /** Only a call can leave the top of the stack outside, and then the next step crashes the machine as it is. */
  lemma OnlyCallsOutgrow(p: Program, m: Machine, env: Input, stale: seq<Byte>)
    requires Safe(p, m) && Rooted(m.frames) && |stale| == StaleLocals(p, m)
    ensures var next := Executed(p, m, env, stale);
            Top(next) >= STACK_SIZE ==>
              && InstrAt(p, m.ip).Call? && Top(m) + HEADER + 1 + |stale| >= STACK_SIZE && Rooted(next.frames)
              && forall later :: StackMachine.Step(p, next, later, []) == next.(status := Crashed)
  {
    hide Top, Decode, Defined, Executed, CallFrames;
    GrowthIs(p, m, env, stale);
    var next := Executed(p, m, env, stale);
    if Top(next) >= STACK_SIZE {
      assert InstrAt(p, m.ip).Call?;
      ExecutedCall(p, m, env, stale);
      RootedCall(m.frames, Callee(p, m).nargs, m.ip + 2, stale);
    }
  }

  /** What starting makes of a program whose main has no locals. */
  function Fresh(globals: nat, ip: Word): Machine {
    Machine(Running, ip, seq(globals, _ => 0), [Frame(0, [], [])], 0, 0, 0, NO_KEYS)
  }

  /** The check does pass in that place: a program whose globals fill the stack can push a short past its end. */
  lemma ShortPastEnd(env: Input) returns (p: Program, m: Machine)
    ensures ProgramFits(p) && Started(p, m, 0) && |m.globals| == p.storage[p.at]
    ensures Rooted(m.frames) && Executes(m, env) && Supplied(p, m) && GrowsByShort(InstrAt(p, m.ip))
    ensures Reach(p, m) == STACK_SIZE
  {
    p, m := Program([88, 1, 0, 0, 0, 0, 30], 0), Fresh(88, 6);
    OneFrame(m.frames[0]);
    assert Decode(30) == Const(true, Inline(0));
  }

  /** Nor does the check cover a call: three bytes below that place, the header of a frame does not fit. */
  lemma CallPastEnd(env: Input) returns (p: Program, m: Machine)
    ensures ProgramFits(p) && Started(p, m, 0) && |m.globals| == p.storage[p.at]
    ensures Rooted(m.frames) && Executes(m, env) && Supplied(p, m) && InstrAt(p, m.ip).Call?
    ensures Callee(p, m).nlocals == 0 && Top(m) == STACK_SIZE - 5 && Reach(p, m) >= STACK_SIZE
  {
    p, m := Program([85, 1, 0, 0, 0, 0, 82, 0], 0), Fresh(85, 6);
    OneFrame(m.frames[0]);
    assert Decode(82) == Call;
  }
}
