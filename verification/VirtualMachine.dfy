/**
 * The bytecode interpreter (interpreter.c): frames, operands and globals share one byte array,
 * and a call saves the caller's pointers in that array. It refines the structured machine.
 */
module VirtualMachine {
  import opened Bytes
  import opened ExtraReport
  import opened StackMachine
  import opened FrameLayout
  import opened MachineRuns

  class Vm {
    const program: Program
    const base: Address               // the address of the stack
    const stack: array<Byte>
    const report: ExtraKeyboardReport
    var status: Status
    var ip: Word
    var stackTop: int                 // index of the topmost byte
    var currentFrame: nat             // index of the frame header
    var delayEnd: nat
    var waitKey: Byte
    var trigger: Byte
    ghost var frames: seq<Frame>

    function Globals(): nat
      requires ProgramFits(program)
    {
      program.storage[program.at]
    }

    /** The byte stack holds the frames and both pointers are where they belong. */
    ghost predicate StackValid()
      reads stack, `stackTop, `currentFrame, `frames
    {
      && ProgramFits(program) && Layout(stack[..], base, Globals(), frames)
      && stackTop + 1 == End(Globals(), frames) && currentFrame == At(Globals(), frames, |frames| - 1)
    }

    ghost predicate Valid()
      reads this, stack, report, report.keys
    {
      StackValid() && report.Valid() && stack != report.keys && Rooted(frames)
    }

    /**
     * The last frame ends behind the stack: all that is known of it is what was written inside.
     * The machine does not step again.
     */
    ghost predicate Overgrown()
      reads stack, `stackTop, `frames
    {
      && ProgramFits(program) && stack.Length == STACK_SIZE && Globals() <= STACK_SIZE && frames != []
      && stackTop + 1 == End(Globals(), frames) && stackTop >= STACK_SIZE
    }

    ghost predicate Sound()
      reads this, stack, report, report.keys
    {
      (StackValid() || Overgrown()) && report.Valid() && stack != report.keys && Rooted(frames)
    }

    ghost function GlobalBytes(): seq<Byte>
      requires ProgramFits(program) && Globals() <= stack.Length
      reads stack
    {
      stack[..Globals()]
    }

    /** The machine that the bytes stand for. */
    ghost function View(): Machine
      requires ProgramFits(program) && Globals() <= stack.Length
      reads this, stack, report, report.keys
    {
      Machine(status, ip, GlobalBytes(), frames, delayEnd, waitKey, trigger, report.View())
    }

    constructor (program: Program, base: Address)
      ensures this.program == program && this.base == base && status.Stopped? && ReadyToStart()
      ensures fresh(stack) && fresh(report) && fresh(report.keys)
      ensures forall i :: 0 <= i < stack.Length ==> stack[i] == 0
    {
      this.program, this.base := program, base;
      stack := new Byte[STACK_SIZE](_ => 0);
      report := new ExtraKeyboardReport();
      status, ip, stackTop, currentFrame, delayEnd, waitKey, trigger := Stopped, 0, 0, 0, 0, 0, 0;
      frames := [];
    }

    ghost predicate ReadyToStart()
      reads this, report, report.keys
    {
      stack.Length == STACK_SIZE && report.Valid() && stack != report.keys
    }

    lemma StackFacts()
      requires StackValid()
      ensures stack.Length == STACK_SIZE && Globals() <= currentFrame
      ensures currentFrame + HEADER + |Locals(frames)| <= stackTop < STACK_SIZE
      ensures frames != [] && Globals() <= stack.Length
      ensures stackTop == currentFrame + HEADER + |Locals(frames)| + |Ops(frames)|
      ensures stackTop + 1 == Globals() + FrameStart(frames, |frames|)
    {
      hide FrameAt, FrameStart;
      LastBytes(stack[..], base, Globals(), frames);
    }

    // ---- operand bytes ----

    method PushByte(b: Byte)
      requires StackValid() && stackTop < STACK_SIZE - 1
      modifies stack, `stackTop, `frames
      ensures StackValid() && frames == WithOps(old(frames), Ops(old(frames)) + [b])
      ensures GlobalBytes() == old(GlobalBytes())
      ensures stackTop == old(stackTop) + 1
    {
      hide Layout, FrameAt, FrameStart;
      StackFacts();
      PushLayout(stack[..], base, Globals(), frames, b);
      EndWith(Globals(), frames, Ops(frames) + [b]);
      stackTop := stackTop + 1;
      stack[stackTop] := b;
      assert stack[..] == old(stack[..])[stackTop := b];
      frames := WithOps(frames, Ops(frames) + [b]);
    }

    method PopByte() returns (b: Byte)
      requires StackValid() && |Ops(frames)| >= 1
      modifies `stackTop, `frames
      ensures StackValid() && frames == WithOps(old(frames), Drop(Ops(old(frames)), 1))
      ensures b == TopByte(Ops(old(frames)), 0)
      ensures stackTop == old(stackTop) - 1
    {
      hide Layout, FrameAt, FrameStart;
      StackFacts();
      DropLayout(stack[..], base, Globals(), frames, 1);
      EndWith(Globals(), frames, Drop(Ops(frames), 1));
      LastBytes(stack[..], base, Globals(), frames);
      b := stack[stackTop];
      assert stack[..][stackTop] == b;
      stackTop := stackTop - 1;
      frames := WithOps(frames, Drop(Ops(frames), 1));
    }

    /** The lower byte of a short lies below the upper one. */
    method PushShort(w: Word)
      requires StackValid() && stackTop < STACK_SIZE - 2
      modifies stack, `stackTop, `frames
      ensures StackValid() && frames == WithOps(old(frames), Ops(old(frames)) + WordBytes(w))
      ensures GlobalBytes() == old(GlobalBytes())
      ensures stackTop == old(stackTop) + 2
    {
      hide Layout, FrameAt, FrameStart, Lo, Hi;
      StackFacts();
      PushByte(Lo(w));
      PushByte(Hi(w));
      OpsTwice(old(frames), Lo(w), Hi(w));
    }

    method PopShort() returns (w: Word)
      requires StackValid() && |Ops(frames)| >= 2
      modifies `stackTop, `frames
      ensures StackValid() && frames == WithOps(old(frames), Drop(Ops(old(frames)), 2))
      ensures w == TopWord(Ops(old(frames)), 0)
      ensures stackTop == old(stackTop) - 2
    {
      hide Layout, FrameAt, FrameStart, MakeWord;
      StackFacts();
      var hi := PopByte();
      var lo := PopByte();
      w := MakeWord(lo, hi);
      DropTwice(old(frames), 1, 1);
    }

    method PeekByte() returns (b: Byte)
      requires StackValid() && |Ops(frames)| >= 1
      ensures b == TopByte(Ops(frames), 0)
    {
      hide Layout, FrameAt, FrameStart;
      StackFacts();
      LastBytes(stack[..], base, Globals(), frames);
      b := stack[stackTop];
      assert stack[..][stackTop] == b;
    }

    method PeekShort() returns (w: Word)
      requires StackValid() && |Ops(frames)| >= 2
      ensures w == TopWord(Ops(frames), 0)
    {
      hide Layout, FrameAt, FrameStart, MakeWord;
      StackFacts();
      LastBytes(stack[..], base, Globals(), frames);
      w := MakeWord(stack[stackTop - 1], stack[stackTop]);
      assert stack[..][stackTop - 1] == stack[stackTop - 1] && stack[..][stackTop] == stack[stackTop];
    }

    // ---- variables ----

    method LoadLocal(a: nat) returns (b: Byte)
      requires StackValid() && a < |Locals(frames)|
      ensures b == Locals(frames)[a]
    {
      hide Layout, FrameAt, FrameStart;
      StackFacts();
      LastBytes(stack[..], base, Globals(), frames);
      b := stack[currentFrame + HEADER + a];
      assert b == stack[..][currentFrame + HEADER..currentFrame + HEADER + |Locals(frames)|][a];
    }

    method StoreLocal(a: nat, b: Byte)
      requires StackValid() && a < |Locals(frames)|
      modifies stack, `frames
      ensures StackValid() && frames == WithLocals(old(frames), Locals(old(frames))[a := b])
      ensures GlobalBytes() == old(GlobalBytes())
    {
      hide Layout, FrameAt, FrameStart;
      StackFacts();
      StoreLocalLayout(stack[..], base, Globals(), frames, a, b);
      EndWithLocals(Globals(), frames, Locals(frames)[a := b]);
      stack[currentFrame + HEADER + a] := b;
      assert stack[..] == old(stack[..])[currentFrame + HEADER + a := b];
      frames := WithLocals(frames, Locals(frames)[a := b]);
    }

    method StoreGlobal(a: nat, b: Byte)
      requires StackValid() && a < Globals()
      modifies stack
      ensures StackValid() && GlobalBytes() == old(GlobalBytes())[a := b]
    {
      hide Layout, FrameAt, FrameStart;
      StackFacts();
      StoreGlobalLayout(stack[..], base, Globals(), frames, a, b);
      stack[a] := b;
      assert stack[..] == old(stack[..])[a := b];
    }

    // ---- frames ----

    method WriteWord(at: nat, w: Word)
      requires at + 2 <= stack.Length
      modifies stack
      ensures stack[at] == Lo(w) && stack[at + 1] == Hi(w)
      ensures forall x :: 0 <= x < stack.Length && x != at && x != at + 1 ==> stack[x] == old(stack[x])
    {
      stack[at], stack[at + 1] := Lo(w), Hi(w);
    }

    method WriteHeader(at: nat, returnAddress: Word, returnStack: Word, previous: Word)
      requires at + HEADER <= stack.Length
      modifies stack
      ensures ReadWord(stack[..], at) == returnAddress && ReadWord(stack[..], at + 2) == returnStack
      ensures ReadWord(stack[..], at + 4) == previous
      ensures forall x :: 0 <= x < stack.Length && !(at <= x < at + HEADER) ==> stack[x] == old(stack[x])
    {
      hide ReadWord, Lo, Hi;
      WriteWord(at, returnAddress);
      WriteWord(at + 2, returnStack);
      WriteWord(at + 4, previous);
      HeaderWritten(stack[..], at, returnAddress, returnStack, previous);
    }

    /** Takes n arguments off the stack, the last one first. */
    method PopArgs(n: nat) returns (args: array<Byte>)
      requires StackValid() && n <= |Ops(frames)|
      modifies `stackTop, `frames
      ensures StackValid() && frames == WithOps(old(frames), Drop(Ops(old(frames)), n))
      ensures fresh(args) && args[..] == Ops(old(frames))[|Ops(old(frames))| - n..]
      ensures stackTop == old(stackTop) - n
    {
      hide Layout, FrameAt, FrameStart;
      StackFacts();
      ghost var fs := frames;
      args := new Byte[n];
      DropNothing(fs);
      var i := n;
      while i > 0
        invariant 0 <= i <= n && StackValid() && frames == WithOps(fs, Drop(Ops(fs), n - i))
        invariant args[i..] == Ops(fs)[|Ops(fs)| - (n - i)..] && stackTop == old(stackTop) - (n - i)
      {
        DropMore(fs, n - i);
        var arg := PopByte();
        i := i - 1;
        args[i] := arg;
        assert args[i..] == [arg] + args[i + 1..];
      }
    }

    /** Copies the arguments to the front of the new frame's locals. */
    method CopyArgs(to: nat, args: array<Byte>)
      requires args != stack && to + args.Length <= stack.Length
      modifies stack
      ensures stack[to..to + args.Length] == args[..]
      ensures forall x :: 0 <= x < stack.Length && !(to <= x < to + args.Length) ==> stack[x] == old(stack[x])
    {
      forall k | 0 <= k < args.Length {
        stack[to + k] := args[k];
      }
    }

    /** Writes a frame right above the operands. Locals that get no argument keep what the stack held. */
    method WriteFrame(frame: nat, args: array<Byte>, nlocals: nat) returns (ghost stale: seq<Byte>)
      requires StackValid() && args != stack && args.Length <= nlocals && frame == stackTop + 1
      requires frame + HEADER + args.Length <= STACK_SIZE
      modifies stack
      ensures |stale| == nlocals - args.Length && stack.Length == STACK_SIZE && GlobalBytes() == old(GlobalBytes())
      ensures frame + HEADER + nlocals + 1 <= STACK_SIZE ==>
                Layout(stack[..], base, Globals(), frames + [Frame(ip, args[..] + stale, [])])
    {
      hide Layout, FrameAt, FrameStart, ReadWord, At, Locals, Ops;
      StackFacts();
      ghost var bytes := stack[..];
      WriteHeader(frame, ip, base + frame - 1, base + currentFrame);
      ghost var header := stack[..];
      CopyArgs(frame + HEADER, args);
      if frame + HEADER + nlocals + 1 <= STACK_SIZE {
        stale := stack[frame + HEADER + args.Length..frame + HEADER + nlocals];
        FrameWritten(bytes, header, stack[..], base, Globals(), frames, frame, ip, args[..], stale);
      } else {
        stale := seq(nlocals - args.Length, _ => 0);
      }
    }

    /** Creates the frame of a called method. */
    method EnterFrame(args: array<Byte>, nlocals: nat) returns (ghost stale: seq<Byte>)
      requires StackValid() && args != stack && args.Length <= nlocals
      requires stackTop + HEADER + args.Length < STACK_SIZE
      modifies stack, `stackTop, `currentFrame, `frames
      ensures (StackValid() || Overgrown()) && |stale| == nlocals - args.Length
      ensures frames == old(frames) + [Frame(ip, args[..] + stale, [])] && GlobalBytes() == old(GlobalBytes())
    {
      hide Layout, FrameAt, FrameStart;
      StackFacts();
      var frame: nat := stackTop + 1;
      stale := WriteFrame(frame, args, nlocals);
      AboveFrame(Globals(), frames, Frame(ip, args[..] + stale, []));
      frames := frames + [Frame(ip, args[..] + stale, [])];
      currentFrame := frame;
      stackTop := frame + HEADER + nlocals;
    }

    method ReadStackWord(at: nat) returns (w: Word)
      requires at + 2 <= stack.Length
      ensures w == ReadWord(stack[..], at)
    {
      w := MakeWord(stack[at], stack[at + 1]);
    }

    /** Restores the caller's pointers from the frame header. */
    method DoReturn()
      requires StackValid() && |frames| > 1
      modifies `stackTop, `ip, `currentFrame, `frames
      ensures StackValid() && frames == old(frames)[..|old(frames)| - 1] && ip == old(frames)[|old(frames)| - 1].ret
      ensures stackTop + HEADER + 1 <= old(stackTop)
    {
      hide Layout, FrameAt, FrameStart;
      StackFacts();
      LeaveLayout(stack[..], base, Globals(), frames);
      var returnStack := ReadStackWord(currentFrame + 2);
      var returnAddress := ReadStackWord(currentFrame);
      var previous := ReadStackWord(currentFrame + 4);
      LowerEnd(Globals(), frames);
      stackTop := returnStack - base;
      ip := returnAddress;
      currentFrame := previous - base;
      frames := frames[..|frames| - 1];
    }

    // ---- instructions ----

    method NextInstr() returns (b: Byte)
      requires ProgramFits(program) && ip < |program.storage|
      modifies `ip
      ensures b == program.storage[old(ip)] && ip == old(ip) + 1
    {
      b := program.storage[ip];
      ip := ip + 1;
    }

    method NextShort() returns (w: Word)
      requires ProgramFits(program) && ip + 2 <= |program.storage|
      modifies `ip
      ensures w == MakeWord(program.storage[old(ip)], program.storage[old(ip) + 1]) && ip == old(ip) + 2
    {
      w := MakeWord(program.storage[ip], program.storage[ip + 1]);
      ip := ip + 2;
    }

    /** A value that is part of the opcode or the next byte of code. */
    method OperandValue(o: Operand) returns (b: Byte)
      requires ProgramFits(program) && ip < |program.storage| + if o.Following? then 0 else 1
      modifies `ip
      ensures if o.Inline? then b == o.value && ip == old(ip) else b == program.storage[old(ip)] && ip == old(ip) + 1
    {
      match o
      case Inline(value) => b := value;
      case Following => b := NextInstr();
    }

    method ExecLocal(store: bool, wide: bool, at: Byte)
      requires StackValid() && SlotExists(Locals(frames), at, wide)
      requires if store then Width(wide) <= |Ops(frames)| else stackTop + Width(wide) < STACK_SIZE
      modifies stack, `stackTop, `frames
      ensures StackValid() && GlobalBytes() == old(GlobalBytes())
      ensures frames == LocalFrames(old(frames), store, wide, at)
    {
      hide Layout, FrameAt, FrameStart, Lo, Hi, MakeWord;
      StackFacts();
      if store && wide {
        var w := PopShort();
        StoreLocal(at, Lo(w));
        StoreLocal(at + 1, Hi(w));
      } else if store {
        var b := PopByte();
        StoreLocal(at, b);
      } else if wide {
        var lo := LoadLocal(at);
        var hi := LoadLocal(at + 1);
        LoadedWord(Locals(frames), at);
        PushShort(MakeWord(lo, hi));
      } else {
        var b := LoadLocal(at);
        assert LoadFrom(Locals(frames), at, false) == [b];
        PushByte(b);
      }
    }

    method ExecGlobal(store: bool, wide: bool, at: Byte)
      requires StackValid() && Globals() <= stack.Length && SlotExists(GlobalBytes(), at, wide)
      requires if store then Width(wide) <= |Ops(frames)| else stackTop + Width(wide) < STACK_SIZE
      modifies stack, `stackTop, `frames
      ensures StackValid() && Globals() <= stack.Length
      ensures var fs, gs := old(frames), old(GlobalBytes());
              && frames == WithOps(fs, if store then Drop(Ops(fs), Width(wide)) else Ops(fs) + LoadFrom(gs, at, wide))
              && GlobalBytes() == if store then StoreIn(gs, at, wide, Ops(fs)) else gs
    {
      hide Layout, FrameAt, FrameStart, Lo, Hi, MakeWord;
      StackFacts();
      if store && wide {
        var w := PopShort();
        StoreGlobal(at, Lo(w));
        StoreGlobal(at + 1, Hi(w));
      } else if store {
        var b := PopByte();
        StoreGlobal(at, b);
      } else if wide {
        LoadedWord(GlobalBytes(), at);
        PushShort(MakeWord(stack[at], stack[at + 1]));
      } else {
        assert LoadFrom(GlobalBytes(), at, false) == [stack[at]];
        PushByte(stack[at]);
      }
    }

    /** Operand instructions whose result is one byte or short. */
    method ExecBinary(op: BinaryOp, wide: bool)
      requires StackValid() && 2 * Width(wide) <= |Ops(frames)| && Defined(Binary(op, wide), Ops(frames))
      modifies stack, `stackTop, `frames
      ensures StackValid() && GlobalBytes() == old(GlobalBytes())
      ensures frames == WithOps(old(frames), BinaryOn(op, wide, Ops(old(frames))))
    {
      hide Layout, FrameAt, FrameStart, Lo, Hi, MakeWord, ByteResult, WordResult;
      StackFacts();
      if wide {
        DropTwice(frames, 2, 2);
        var b := PopShort();
        var a := PopShort();
        PushShort(WordResult(op, a, b));
      } else {
        DropTwice(frames, 1, 1);
        var b := PopByte();
        var a := PopByte();
        PushByte(ByteResult(op, a, b));
      }
    }

    method ExecNot(wide: bool)
      requires StackValid() && Width(wide) <= |Ops(frames)|
      modifies stack, `stackTop, `frames
      ensures StackValid() && GlobalBytes() == old(GlobalBytes())
      ensures frames == WithOps(old(frames), NotOn(wide, Ops(old(frames))))
    {
      hide Layout, FrameAt, FrameStart, Lo, Hi, MakeWord, TopByte, TopWord, WithOps, Ops;
      StackFacts();
      OpsReplaced(frames, Drop(Ops(frames), Width(wide)), NotOn(wide, Ops(frames)));
      if wide {
        var x := PopShort();
        PushShort(0xFFFF - x);
      } else {
        var x := PopByte();
        PushByte(255 - x);
      }
    }

    method ExecCompare(wide: bool)
      requires StackValid() && 2 * Width(wide) <= |Ops(frames)|
      modifies stack, `stackTop, `frames
      ensures StackValid() && GlobalBytes() == old(GlobalBytes())
      ensures frames == WithOps(old(frames), CompareOn(wide, Ops(old(frames))))
    {
      hide Layout, FrameAt, FrameStart, Lo, Hi, MakeWord;
      StackFacts();
      if wide {
        DropTwice(frames, 2, 2);
        var b := PopShort();
        var a := PopShort();
        PushByte(Comparison(Signed16(a), Signed16(b)));
      } else {
        DropTwice(frames, 1, 1);
        var b := PopByte();
        var a := PopByte();
        PushByte(Comparison(Signed8(a), Signed8(b)));
      }
    }

    method ExecShift(left: bool, wide: bool)
      requires StackValid() && 1 + Width(wide) <= |Ops(frames)| && Defined(Shift(left, wide), Ops(frames))
      modifies stack, `stackTop, `frames
      ensures StackValid() && GlobalBytes() == old(GlobalBytes())
      ensures frames == WithOps(old(frames), ShiftOn(left, wide, Ops(old(frames))))
    {
      hide Layout, FrameAt, FrameStart, Lo, Hi, MakeWord, Shifted, Wrap8, Wrap16;
      StackFacts();
      DropTwice(frames, 1, Width(wide));
      var s := PopByte();
      if wide {
        var v := PopShort();
        PushShort(Wrap16(Shifted(left, Signed16(v), Signed8(s))));
      } else {
        var v := PopByte();
        PushByte(Wrap8(Shifted(left, Signed8(v), Signed8(s))));
      }
    }

    method ExecDup(wide: bool)
      requires StackValid() && Width(wide) <= |Ops(frames)| && stackTop + Width(wide) < STACK_SIZE
      modifies stack, `stackTop, `frames
      ensures StackValid() && GlobalBytes() == old(GlobalBytes())
      ensures frames == WithOps(old(frames), DupOn(wide, Ops(old(frames))))
    {
      hide Layout, FrameAt, FrameStart, Lo, Hi, MakeWord;
      StackFacts();
      if wide {
        var w := PeekShort();
        PushShort(w);
      } else {
        var b := PeekByte();
        PushByte(b);
      }
    }

    method ExecSwap()
      requires StackValid() && 2 <= |Ops(frames)|
      modifies stack, `stackTop, `frames
      ensures StackValid() && GlobalBytes() == old(GlobalBytes())
      ensures frames == WithOps(old(frames), SwapOn(Ops(old(frames))))
    {
      hide Layout, FrameAt, FrameStart;
      StackFacts();
      DropTwice(frames, 1, 1);
      var b := PopByte();
      var a := PopByte();
      OpsTwice(frames, b, a);
      PushByte(b);
      PushByte(a);
    }

    method ExecPop(n: nat)
      requires StackValid() && 1 <= n <= 2 && n <= |Ops(frames)|
      modifies `stackTop, `frames
      ensures StackValid() && frames == WithOps(old(frames), Drop(Ops(old(frames)), n))
    {
      hide Layout, FrameAt, FrameStart;
      StackFacts();
      DropTwice(frames, 1, n - 1);
      var _ := PopByte();
      if n == 2 {
        var _ := PopByte();
      }
    }

    method ExecConvert(widen: bool)
      requires StackValid() && if widen then 1 <= |Ops(frames)| && stackTop + 1 < STACK_SIZE else 2 <= |Ops(frames)|
      modifies stack, `stackTop, `frames
      ensures StackValid() && GlobalBytes() == old(GlobalBytes())
      ensures frames == WithOps(old(frames), if widen then WidenOn(Ops(old(frames))) else NarrowOn(Ops(old(frames))))
    {
      hide Layout, FrameAt, FrameStart, Lo, Hi, MakeWord, Wrap16, Signed8;
      StackFacts();
      if widen {
        var b := PopByte();
        PushShort(Wrap16(Signed8(b)));
      } else {
        var w := PopShort();
        PushByte(Lo(w));
      }
    }

    /** Any instruction that only computes with operands. */
    method ExecOperands(i: Instr)
      requires StackValid() && OnOperands(i) && Pops(i) <= |Ops(frames)| && Defined(i, Ops(frames))
      requires (i.Pop? ==> 1 <= i.n <= 2)
      requires stackTop - Pops(i) + Pushes(i) < STACK_SIZE
      modifies stack, `stackTop, `frames
      ensures StackValid() && GlobalBytes() == old(GlobalBytes())
      ensures frames == WithOps(old(frames), Computed(i, Ops(old(frames))))
    {
      hide StackValid, WithOps, Drop, BinaryOn, NotOn, CompareOn, ShiftOn, DupOn, SwapOn, WidenOn, NarrowOn;
      match i
      case Dup(wide) => ExecDup(wide);
      case Pop(n) => ExecPop(n);
      case Swap => ExecSwap();
      case Binary(op, wide) => ExecBinary(op, wide);
      case Not(wide) => ExecNot(wide);
      case Compare(wide) => ExecCompare(wide);
      case Shift(left, wide) => ExecShift(left, wide);
      case Widen => ExecConvert(true);
      case Narrow => ExecConvert(false);
    }

    // ---- control flow ----

    method ExecCall(callee: Method) returns (ghost stale: seq<Byte>)
      requires StackValid() && callee.nargs <= callee.nlocals && callee.nargs as int <= |Ops(frames)|
      requires stackTop + HEADER < STACK_SIZE
      modifies stack, `stackTop, `currentFrame, `frames, `ip
      ensures (StackValid() || Overgrown()) && GlobalBytes() == old(GlobalBytes())
      ensures |stale| == callee.nlocals as int - callee.nargs as int
      ensures frames == CallFrames(old(frames), callee.nargs, old(ip), stale)
      ensures ip == Wrap16(CodeStart(program) + callee.offset)
    {
      hide Layout, FrameAt, FrameStart, Wrap16;
      StackFacts();
      var args := PopArgs(callee.nargs);
      stale := EnterFrame(args, callee.nlocals);
      ip := Wrap16(CodeStart(program) + callee.offset);
    }

    /** The result goes from the returning frame to the caller's operands. */
    method MoveResult(width: nat)
      requires StackValid() && |frames| > 1 && width <= 2 && width <= |Ops(frames)|
      modifies stack, `stackTop, `currentFrame, `frames, `ip
      ensures StackValid() && GlobalBytes() == old(GlobalBytes())
      ensures frames == ReturnFrames(old(frames), width) && ip == Ret(old(frames))
    {
      hide Layout, FrameAt, FrameStart, MakeWord, Lo, Hi, Ops, WithOps, Drop, TopByte, TopWord;
      StackFacts();
      ghost var fs := frames;
      ResultBytes(Ops(fs));
      FramesBelow(fs, width);
      if width == 1 {
        var rv := PopByte();
        DoReturn();
        StackFacts();
        PushByte(rv);
      } else if width == 2 {
        var rv := PopShort();
        DoReturn();
        StackFacts();
        PushShort(rv);
      } else {
        DoReturn();
        StackFacts();
        NoResult(frames);
      }
    }

    method ExecReturn(width: nat)
      requires StackValid() && width <= 2 && Rooted(frames) && (Ret(frames) != 0 ==> width <= |Ops(frames)|)
      modifies stack, `stackTop, `currentFrame, `frames, `ip, `status
      ensures StackValid() && GlobalBytes() == old(GlobalBytes())
      ensures if Ret(old(frames)) == 0 then status.Stopped? && frames == old(frames) && ip == old(ip)
              else status == old(status) && frames == ReturnFrames(old(frames), width) && ip == Ret(old(frames))
    {
      hide Layout, FrameAt, FrameStart, ReadWord, Ops;
      StackFacts();
      ReturnAddress();
      var returnAddress := ReadStackWord(currentFrame);
      if returnAddress == 0 {
        status := Stopped;
      } else {
        RootedReturn(frames, width);
        MoveResult(width);
      }
    }

    lemma ReturnAddress()
      requires StackValid()
      ensures currentFrame + HEADER <= stack.Length && ReadWord(stack[..], currentFrame) == Ret(frames)
    {
      hide FrameStart;
      StackFacts();
      LayoutFits(stack[..], base, Globals(), frames);
    }

    method ExecBranch(cond: Condition)
      requires StackValid() && |Ops(frames)| >= 1 && 1 <= ip && ip + 2 <= |program.storage|
      modifies `stackTop, `frames, `ip
      ensures StackValid() && frames == WithOps(old(frames), Drop(Ops(old(frames)), 1))
      ensures ip == if Satisfies(cond, Signed8(TopByte(Ops(old(frames)), 0))) then Jump(program, old(ip) - 1)
              else old(ip) + 2
    {
      hide Layout, FrameAt, FrameStart, Satisfies;
      var val := PopByte();
      if !Satisfies(cond, Signed8(val)) {
        ip := ip + 2;
      } else {
        ExecGoto();
      }
    }

    method ExecGoto()
      requires ProgramFits(program) && 1 <= ip && ip + 2 <= |program.storage|
      modifies `ip
      ensures ip == Jump(program, old(ip) - 1)
    {
      var offset := NextShort();
      ip := Wrap16(ip + Signed16(offset) - 3);
    }

    // ---- system calls ----

    method ExecKey(press: bool)
      requires StackValid() && report.Valid() && stack != report.keys && |Ops(frames)| >= 1
      modifies `stackTop, `frames, `status, report`modifiers, report.keys
      ensures StackValid() && report.Valid() && frames == WithOps(old(frames), Drop(Ops(old(frames)), 1))
      ensures var key := TopByte(Ops(old(frames)), 0);
              if press && key >= SPECIAL_KEYS then status == old(status) && report.View() == old(report.View())
              else status.WaitReport? && report.View() == if press then Pressed(old(report.View()), key)
                  else Released(old(report.View()), key)
    {
      hide Layout, FrameAt, FrameStart, Pressed, Released, ExtraReport.Holds, DistinctKeys;
      var key := PopByte();
      if press {
        if key >= SPECIAL_KEYS {
          return;
        }
        report.Add(key);
      } else {
        report.Remove(key);
      }
      status := WaitReport;
    }

    method ExecCheck(physical: bool, env: Input)
      requires StackValid() && |Ops(frames)| >= 1
      modifies stack, `stackTop, `frames
      ensures StackValid() && GlobalBytes() == old(GlobalBytes())
      ensures var ops := Ops(old(frames)); var key := TopByte(ops, 0);
              var found := if physical then env.pressed(if key == 0 then trigger else key)
                  else env.sending(key) != NO_KEY;
              frames == WithOps(old(frames), Drop(ops, 1) + [if found then 1 else 0])
    {
      hide Layout, FrameAt, FrameStart;
      StackFacts();
      var key := PopByte();
      if physical {
        if key == 0 {
          key := trigger;
        }
        PushByte(if env.pressed(key) then 1 else 0);
      } else {
        PushByte(if env.sending(key) != NO_KEY then 1 else 0);
      }
    }

    method ExecWait(physical: bool, env: Input)
      requires StackValid() && |Ops(frames)| >= 3
      modifies `stackTop, `frames, `status, `waitKey, `delayEnd
      ensures StackValid()
      ensures var ops := Ops(old(frames)); var delay := Signed16(TopWord(ops, 0));
              && frames == WithOps(old(frames), Drop(ops, 3)) && waitKey == TopByte(ops, 2)
              && status == (if physical then WaitPhysKey else WaitKey) && delayEnd == if delay <= 0 then 0
                      else env.now + delay
    {
      hide Layout, FrameAt, FrameStart, MakeWord;
      StackFacts();
      status := if physical then WaitPhysKey else WaitKey;
      DropTwice(frames, 2, 1);
      var delay := PopShort();
      waitKey := PopByte();
      if Signed16(delay) <= 0 {
        delayEnd := 0;
      } else {
        delayEnd := env.now + Signed16(delay);
      }
    }

    method ExecDelay(env: Input)
      requires StackValid() && |Ops(frames)| >= 2
      modifies `stackTop, `frames, `status, `delayEnd
      ensures StackValid() && status.Delaying?
      ensures var ops := Ops(old(frames)); var delay := Signed16(TopWord(ops, 0));
              frames == WithOps(old(frames), Drop(ops, 2)) && delayEnd == env.now + if delay < 0 then 0 else delay
    {
      hide Layout, FrameAt, FrameStart, MakeWord;
      var delay := PopShort();
      delayEnd := env.now + if Signed16(delay) < 0 then 0 else Signed16(delay);
      status := Delaying;
    }

    method ExecUptime(seconds: bool, env: Input)
      requires StackValid() && stackTop + 2 < STACK_SIZE
      modifies stack, `stackTop, `frames
      ensures StackValid() && GlobalBytes() == old(GlobalBytes())
      ensures frames == WithOps(old(frames), Ops(old(frames)) + WordBytes((if seconds then env.now / 1000
              else env.now) % 0x8000))
    {
      hide Layout, FrameAt, FrameStart, Lo, Hi;
      StackFacts();
      PushShort((if seconds then env.now / 1000 else env.now) % 0x8000);
    }

    /** Takes the arguments of a buzzer or mouse call off the stack. */
    method DropOperands(n: nat)
      requires StackValid() && n <= |Ops(frames)|
      modifies `stackTop, `frames
      ensures StackValid() && frames == WithOps(old(frames), Drop(Ops(old(frames)), n))
    {
      hide Layout, FrameAt, FrameStart;
      StackFacts();
      var _ := PopArgs(n);
    }

    method ExecKeyCall(i: Instr, env: Input)
      requires KeyCall(i) && Valid() && Globals() <= stack.Length && frames != []
      requires Pops(i) <= |Ops(frames)|
      modifies stack, `stackTop, `frames, `status, report`modifiers, report.keys
      ensures Valid() && Globals() <= stack.Length && View() == SystemCall(old(View()), i, env)
    {
      hide StackValid, TopByte, TopWord, Drop, Pressed, Released, DistinctKeys;
      match i
      case PressKey => ExecKey(true);
      case ReleaseKey => ExecKey(false);
      case CheckKey => ExecCheck(false, env);
      case CheckPhysKey => ExecCheck(true, env);
    }

    method ExecTimeCall(i: Instr, env: Input)
      requires SystemInstr(i) && !KeyCall(i) && Valid() && Globals() <= stack.Length && frames != []
      requires Pops(i) <= |Ops(frames)| && stackTop - Pops(i) + Pushes(i) < STACK_SIZE
      modifies stack, `stackTop, `frames, `status, `waitKey, `delayEnd
      ensures Valid() && Globals() <= stack.Length && View() == SystemCall(old(View()), i, env)
    {
      hide StackValid, TopByte, TopWord, Drop, DistinctKeys, Rooted, Signed16, WordBytes;
      ghost var fs := frames;
      match i {
        case Wait(physical) => ExecWait(physical, env);
        case Delay => ExecDelay(env);
        case Uptime(seconds) => ExecUptime(seconds, env);
        case Buzz(_) => DropOperands(Pops(i));
        case MoveMouse =>
          DropOperands(2);
          status := WaitMouseReport;
        case MouseButtons =>
          DropOperands(1);
          status := WaitMouseReport;
      }
      RootedKept(fs, Ops(frames), []);
    }

    // ---- one step ----

    lemma ViewFacts()
      requires Sound()
      ensures ProgramFits(program) && stack.Length == STACK_SIZE && Globals() <= stack.Length && frames != []
      ensures Top(View()) == stackTop && |GlobalBytes()| == Globals()
      ensures stackTop < STACK_SIZE ==> Valid()
    {
      hide Layout, FrameStart;
      if StackValid() { StackFacts(); }
    }

    method ExecConst(wide: bool, value: Operand)
      requires StackValid() && stackTop + Width(wide) < STACK_SIZE
      requires ip + Immediates(Const(wide, value)) <= |program.storage|
      modifies stack, `stackTop, `frames, `ip
      ensures StackValid() && GlobalBytes() == old(GlobalBytes()) && ip == old(ip) + Immediates(Const(wide, value))
      ensures frames == WithOps(old(frames), Ops(old(frames)) + ConstBytes(program, old(ip), wide, value))
    {
      hide Layout, FrameAt, FrameStart, Lo, Hi, MakeWord;
      StackFacts();
      if value.Following? && wide {
        WordParts(program.storage[ip], program.storage[ip + 1]);
        assert program.storage[ip..ip + 2] == [program.storage[ip], program.storage[ip + 1]];
        var w := NextShort();
        PushShort(w);
      } else {
        var v := if value.Inline? then value.value else 0;
        if value.Following? {
          v := NextInstr();
          assert program.storage[old(ip)..old(ip) + 1] == [v];
        }
        if wide {
          PushShort(v);
        } else {
          PushByte(v);
        }
      }
    }

    /** Instructions that move values between variables, code and operands. */
    method ExecValue(i: Instr)
      requires i.Local? || i.Global? || i.Const?
      requires Valid() && Globals() <= stack.Length && 1 <= ip && Safe(program, View().(ip := ip - 1))
      requires i == InstrAt(program, ip - 1)
      modifies stack, `stackTop, `frames, `ip
      ensures Valid() && Globals() <= stack.Length
      ensures View() == Valued(program, old(View()), i)
    {
      hide StackValid, Decode, Layout, FrameStart, StoreIn, LoadFrom, ConstBytes, Top;
      ViewFacts();
      SameTop(View().(ip := ip - 1));
      match i
      case Local(store, wide, slot) =>
        var at := OperandValue(slot);
        ExecLocal(store, wide, at);
      case Global(store, wide) =>
        var at := NextInstr();
        ExecGlobal(store, wide, at);
      case Const(wide, value) => ExecConst(wide, value);
    }

    lemma SameTop(m: Machine)
      requires Valid() && Globals() <= stack.Length && m.globals == GlobalBytes() && m.frames == frames
      ensures Top(m) == stackTop
    {
      hide Layout, FrameStart;
      StackFacts();
    }

    /** The instruction at ip - 1 has just been fetched. */
    ghost predicate Fetched(i: Instr)
      reads this, stack, report, report.keys
    {
      && Valid() && Globals() <= stack.Length && 1 <= ip && Safe(program, View().(ip := ip - 1))
      && i == InstrAt(program, ip - 1)
    }

    method ExecJump(i: Instr)
      requires (i.Branch? || i.Goto? || i.Exit? || i.Nop?) && Fetched(i)
      modifies `stackTop, `frames, `ip, `status
      ensures Valid() && Globals() <= stack.Length && View() == Continued(program, old(View()), i, [])
    {
      hide StackValid, Decode, Layout, FrameStart, Top, Growth, WithOps, Drop, Jump, TopByte, Satisfies, Rooted;
      ghost var fs := frames;
      ViewFacts();
      match i
      case Branch(cond) =>
        ExecBranch(cond);
        RootedKept(fs, Drop(Ops(fs), 1), []);
      case Goto => ExecGoto();
      case Exit => status := Stopped;
      case Nop =>
    }

    method ExecCallInstr() returns (ghost stale: seq<Byte>)
      requires Fetched(Call)
      modifies stack, `stackTop, `currentFrame, `frames, `ip
      ensures Sound() && Globals() <= stack.Length && |stale| == StaleLocals(program, old(View()).(ip := old(ip) - 1))
      ensures View() == Continued(program, old(View()), Call, stale)
    {
      hide StackValid, Overgrown, Decode, Layout, FrameStart, Top, Rooted, CallFrames, MakeWord, Wrap16;
      ghost var fs, at := frames, ip;
      ViewFacts();
      SameTop(View().(ip := ip - 1));
      var id := NextInstr();
      var callee := MethodOf(program, id);
      stale := ExecCall(callee);
      RootedCall(fs, callee.nargs, at + 1, stale);
    }

    method ExecReturnInstr(width: nat)
      requires Fetched(Return(width)) && width <= 2
      modifies stack, `stackTop, `currentFrame, `frames, `ip, `status
      ensures Valid() && Globals() <= stack.Length && View() == Continued(program, old(View()), Return(width), [])
    {
      hide StackValid, Decode, Layout, FrameStart, Top, Growth, Rooted, ReturnFrames;
      ghost var fs := frames;
      ViewFacts();
      ExecReturn(width);
      RootedKept(fs, [], []);
      if Ret(fs) != 0 {
        RootedReturn(fs, width);
      }
    }

    method ExecControl(i: Instr) returns (ghost stale: seq<Byte>)
      requires i.Branch? || i.Goto? || i.Call? || i.Return? || i.Exit? || i.Nop?
      requires Fetched(i) && (i.Return? ==> i.width <= 2)
      modifies stack, `stackTop, `currentFrame, `frames, `ip, `status
      ensures Sound() && Globals() <= stack.Length && |stale| == StaleLocals(program, old(View()).(ip := old(ip) - 1))
      ensures View() == Continued(program, old(View()), i, stale)
    {
      hide StackValid, Overgrown, Safe, Continued, Decode, Rooted;
      stale := [];
      if i.Call? {
        stale := ExecCallInstr();
      } else if i.Return? {
        ExecReturnInstr(i.width);
      } else {
        ExecJump(i);
      }
    }

    /** Fetches and executes one instruction. */
    method ExecuteNext(env: Input) returns (ghost stale: seq<Byte>)
      requires Valid() && Globals() <= stack.Length && Safe(program, View())
      modifies this, stack, report`modifiers, report.keys
      ensures Sound() && Globals() <= stack.Length && |stale| == StaleLocals(program, old(View()))
      ensures View() == Executed(program, old(View()), env, stale)
    {
      hide StackValid, Layout, FrameStart, Top, Computed, SystemCall, Valued, Continued, Decode, Pops, Pushes,
           Immediates, Defined;
      ghost var m := View();
      ViewFacts();
      SameTop(m);
      stale := [];
      var opcode := NextInstr();
      var i := Decode(opcode);
      DecodedWidths(opcode);
      assert View() == m.(ip := m.ip + 1) && View().(ip := ip - 1) == m;
      if OnOperands(i) {
        ExecOperands(i);
      } else if SystemInstr(i) {
        ExecSystem(i, env);
      } else if i.Local? || i.Global? || i.Const? {
        ExecValue(i);
      } else {
        stale := ExecControl(i);
      }
    }

    method ExecSystem(i: Instr, env: Input)
      requires SystemInstr(i) && Valid() && Globals() <= stack.Length && frames != []
      requires Pops(i) <= |Ops(frames)| && stackTop - Pops(i) + Pushes(i) < STACK_SIZE
      modifies stack, `stackTop, `frames, `status, `waitKey, `delayEnd, report`modifiers, report.keys
      ensures Valid() && Globals() <= stack.Length && View() == SystemCall(old(View()), i, env)
    {
      hide StackValid, SystemCall, Pushes, Pops;
      if KeyCall(i) {
        ExecKeyCall(i, env);
      } else {
        ExecTimeCall(i, env);
      }
    }

    /** A wait is over: its result goes to the operands. */
    method FinishWait(result: Byte)
      requires Valid() && Globals() <= stack.Length && stackTop < STACK_SIZE - 1
      modifies stack, `stackTop, `frames, `delayEnd, `status
      ensures Valid() && Globals() <= stack.Length && View() == WaitOver(old(View()), result)
    {
      hide StackValid, Rooted;
      ViewFacts();
      RootedKept(frames, Ops(frames) + [result], []);
      PushByte(result);
      delayEnd := 0;
      status := Running;
    }

    method StepWait(env: Input)
      requires Valid() && Globals() <= stack.Length && stackTop < STACK_SIZE - 1
      requires (status.WaitKey? || status.WaitPhysKey?)
      modifies stack, `stackTop, `frames, `delayEnd, `status, `waitKey
      ensures Valid() && Globals() <= stack.Length && View() == Waited(old(View()), env)
    {
      hide StackValid, Rooted;
      if status.WaitPhysKey? {
        if waitKey == 0 {
          waitKey := trigger;
        }
        var pressed := env.pressed(waitKey);
        if pressed || (delayEnd != 0 && env.now > delayEnd) {
          FinishWait(if pressed then 1 else 0);
        }
      } else {
        var r := env.sending(waitKey);
        if r != NO_KEY {
          FinishWait(r);
        } else if delayEnd != 0 && env.now > delayEnd {
          FinishWait(0);
        }
      }
    }

    /**
     * One step of the byte machine is one step of the structured machine, as long as the code
     * keeps to its own locals, operands and globals and writes inside the stack. A machine whose
     * last frame does not fit crashes before it touches the stack.
     */
    method Step(env: Input) returns (ghost stale: seq<Byte>)
      requires Sound() && Globals() <= stack.Length && !Halted(status)
      requires (Executes(View(), env) ==> Safe(program, View()))
      modifies this, stack, report`modifiers, report.keys
      ensures Sound() && Globals() <= stack.Length
      ensures |stale| == StaleAt(program, old(View()), env)
      ensures View() == StackMachine.Step(program, old(View()), env, stale)
      ensures old(stackTop) > STACK_SIZE - 2 ==> status.Crashed? && stack[..] == old(stack[..])
    {
      hide StackValid, Overgrown, Rooted, Safe, Executed, Waited, Top;
      ViewFacts();
      ghost var m := View();
      stale := [];
      if stackTop > STACK_SIZE - 2 {
        status := Crashed;
        return;
      }
      match status
      case WaitReport =>
      case WaitMouseReport =>
      case WaitPhysKey => StepWait(env);
      case WaitKey => StepWait(env);
      case Delaying =>
        if env.now > delayEnd {
          SafeRunning(program, m);
          delayEnd, status := 0, Running;
          stale := ExecuteNext(env);
        }
      case Running => stale := ExecuteNext(env);
    }

    // ---- starting ----

    /**
     * Starts main, or refuses when there is no program or it is already running. Globals keep
     * their values. Main's locals need not fit the stack: if they do not, the first step crashes.
     */
    method Start(triggerKey: Byte) returns (ok: bool)
      requires ReadyToStart() && ProgramFits(program) && Globals() + HEADER <= STACK_SIZE
      modifies this, stack
      ensures ok <==> old(status).Stopped? || old(status).Crashed?
      ensures !ok ==> View() == old(View())
      ensures ok ==> Sound() && Started(program, View(), triggerKey) && GlobalBytes() == old(GlobalBytes())
      ensures ok ==> (Valid() <==> Globals() + HEADER + program.storage[program.at + 3] + 1 <= STACK_SIZE)
    {
      hide FrameAt, Layout, ReadWord, Wrap16, MakeWord, CodeStart, FrameStart;
      if status.NoProgram? || !Halted(status) {
        return false;
      }
      status, trigger := Running, triggerKey;
      var nlocals := program.storage[program.at + 3];
      ip := Wrap16(CodeStart(program) + MakeWord(program.storage[program.at + 4], program.storage[program.at + 5]));
      EnterMain(nlocals);
      ok := true;
    }

    /** The first frame returns nowhere. */
    method EnterMain(nlocals: nat)
      requires ProgramFits(program) && stack.Length == STACK_SIZE && Globals() + HEADER <= STACK_SIZE
      modifies stack, `stackTop, `currentFrame, `frames
      ensures GlobalBytes() == old(GlobalBytes()) && stackTop == Globals() + HEADER + nlocals
      ensures |frames| == 1 && Ret(frames) == 0 && |Locals(frames)| == nlocals && Ops(frames) == []
      ensures if stackTop < STACK_SIZE then StackValid() else Overgrown() && !StackValid()
    {
      hide FrameAt, Layout, ReadWord, FrameStart;
      currentFrame := Globals();
      assert Lo(0) == 0 && Hi(0) == 0;
      WriteWord(currentFrame, 0);
      WriteWord(currentFrame + 4, 0);
      ZeroWord(stack[..], currentFrame);
      ZeroWord(stack[..], currentFrame + 4);
      stackTop := currentFrame + HEADER + nlocals;
      if stackTop < STACK_SIZE {
        MainLayout(stack[..], base, Globals(), nlocals);
        frames := [Frame(0, stack[Globals() + HEADER..Globals() + HEADER + nlocals], [])];
      } else {
        frames := [Frame(0, seq(nlocals, _ => 0), [])];
        OneFrame(frames[0]);
        if StackValid() {
          StackFacts();
        }
      }
    }

    /** A keyboard report has been filled with this machine's keys. */
    method AppendTo(out: KeyboardReport)
      requires ProgramFits(program) && Globals() <= stack.Length && !Halted(status)
      requires out.codes.Length == report.keys.Length == SLOTS && out.codes != report.keys && out.codes != stack
      modifies `status, out`modifier, out.codes
      ensures Globals() <= stack.Length && View() == ReportFilled(old(View())) && (old(Sound()) ==> Sound())
      ensures out.modifier == old(out.modifier) | View().side.modifiers
      ensures out.codes[..] == Appended(old(out.codes[..]), View().side.keys)
    {
      hide StackValid, Rooted, Appended, DistinctKeys;
      if status.WaitReport? {
        status := Running;
      }
      out.Append(report);
    }

    method MouseReportSent()
      requires Sound() && Globals() <= stack.Length && !Halted(status)
      modifies `status
      ensures Sound() && Globals() <= stack.Length && View() == MouseReportFilled(old(View()))
    {
      if status.WaitMouseReport? {
        status := Running;
      }
    }

    // ---- whole runs ----

    method Perform(e: Event, out: KeyboardReport) returns (ghost t: Tick)
      requires Sound() && Globals() <= stack.Length && !Halted(status) && CanRun(program, View(), e)
      requires out.codes.Length == SLOTS && out.codes != report.keys && out.codes != stack
      modifies this, stack, report`modifiers, report.keys, out`modifier, out.codes
      ensures Sound() && Globals() <= stack.Length
      ensures CanTick(program, old(View()), t) && View() == Next(program, old(View()), t)
      ensures t == TickOf(e, if t.Instruction? then t.stale else [])
    {
      hide StackValid, Overgrown, Rooted, StackMachine.Step, Safe, Appended, StaleAt, Executes, DistinctKeys;
      ViewFacts();
      match e
      case Cycle(env) =>
        ghost var stale := Step(env);
        t := Instruction(env, stale);
      case Report =>
        AppendTo(out);
        t := ReportSent;
      case MouseReport =>
        MouseReportSent();
        t := MachineRuns.MouseReportSent;
    }

    /** Every run of the byte machine is a run of the structured machine, until the program halts. */
    method Run(events: seq<Event>, out: KeyboardReport) returns (n: nat, ghost ticks: seq<Tick>, ghost ms: seq<Machine>)
      requires Sound() && Globals() <= stack.Length && SafeRun(program, View(), events)
      requires out.codes.Length == SLOTS && out.codes != report.keys && out.codes != stack
      modifies this, stack, report`modifiers, report.keys, out`modifier, out.codes
      ensures Sound() && Globals() <= stack.Length && n <= |events| && (n < |events| ==> Halted(status))
      ensures |ticks| == n && Trace(program, ticks, ms) && ms[0] == old(View()) && ms[n] == View()
      ensures forall i :: 0 <= i < n ==> ticks[i] == TickOf(events[i], if ticks[i].Instruction?
              then ticks[i].stale else [])
    {
      hide Sound, View, Next, CanTick, CanRun;
      ViewFacts();
      n, ticks, ms := 0, [], [View()];
      assert events[0..] == events;
      while n < |events| && !Halted(status)
        invariant n <= |events| && Sound() && Globals() <= stack.Length && SafeRun(program, View(), events[n..])
        invariant |ticks| == n && Trace(program, ticks, ms) && ms[0] == old(View()) && ms[n] == View()
        invariant forall i :: 0 <= i < n ==> ticks[i] == TickOf(events[i], if ticks[i].Instruction?
                then ticks[i].stale else [])
      {
        assert events[n..][0] == events[n] && events[n..][1..] == events[n + 1..];
        ghost var m := View();
        StatusSeen();
        ghost var t := Perform(events[n], out);
        TraceExtended(program, ticks, ms, t);
        ticks, ms := ticks + [t], ms + [View()];
        n := n + 1;
      }
    }

    lemma StatusSeen()
      requires ProgramFits(program) && Globals() <= stack.Length
      ensures View().status == status
    {
    }
  }

  lemma ZeroWord(bytes: seq<Byte>, at: nat)
    requires at + 2 <= |bytes| && bytes[at] == 0 && bytes[at + 1] == 0
    ensures ReadWord(bytes, at) == 0
  {
  }

  lemma SafeRunning(p: Program, m: Machine)
    requires Safe(p, m)
    ensures Safe(p, m.(delayEnd := 0, status := Running))
    ensures StaleLocals(p, m.(delayEnd := 0, status := Running)) == StaleLocals(p, m)
  {
  }

  lemma DecodedWidths(opcode: Byte)
    ensures var i := Decode(opcode); (i.Pop? ==> 1 <= i.n <= 2) && (i.Return? ==> i.width <= 2)
  {
  }

  lemma ResultBytes(ops: seq<Byte>)
    ensures |ops| >= 1 ==> ops[|ops| - 1..] == [TopByte(ops, 0)]
    ensures |ops| >= 2 ==> ops[|ops| - 2..] == WordBytes(TopWord(ops, 0))
    ensures ops[|ops|..] == []
  {
    if |ops| >= 2 { WordParts(ops[|ops| - 2], ops[|ops| - 1]); }
  }

  lemma NoResult(fs: seq<Frame>)
    requires fs != []
    ensures WithOps(fs, Ops(fs) + []) == fs
  {
    assert Ops(fs) + [] == Ops(fs);
  }

  /** Whatever is popped from the returning frame, the frames below it are the same. */
  lemma FramesBelow(fs: seq<Frame>, n: nat)
    requires |fs| > 1 && n <= |Ops(fs)|
    ensures var gs := WithOps(fs, Drop(Ops(fs), n));
            |gs| == |fs| && gs[..|gs| - 1] == fs[..|fs| - 1] && gs[|gs| - 1].ret == Ret(fs)
  {
  }

  lemma LoadedWord(vars: seq<Byte>, at: nat)
    requires SlotExists(vars, at, true)
    ensures WordBytes(MakeWord(vars[at], vars[at + 1])) == LoadFrom(vars, at, true)
  {
    WordParts(vars[at], vars[at + 1]);
  }

  /** A header and then the arguments written above the last frame make a new frame. */
  lemma FrameWritten(bytes: seq<Byte>, header: seq<Byte>, now: seq<Byte>, base: Address, g: nat, fs: seq<Frame>,
                     s: nat, ret: Word, args: seq<Byte>, stale: seq<Byte>)
    requires Layout(bytes, base, g, fs) && s == End(g, fs) && |header| == |now| == |bytes|
    requires s + HEADER + |args| + |stale| + 1 <= STACK_SIZE
    requires forall x :: 0 <= x < |bytes| && !(s <= x < s + HEADER) ==> header[x] == bytes[x]
    requires ReadWord(header, s) == ret && ReadWord(header, s + 2) == base + s - 1
    requires ReadWord(header, s + 4) == base + At(g, fs, |fs| - 1)
    requires forall x :: 0 <= x < |bytes| && !(s + HEADER <= x < s + HEADER + |args|) ==> now[x] == header[x]
    requires now[s + HEADER..s + HEADER + |args|] == args
    requires now[s + HEADER + |args|..s + HEADER + |args| + |stale|] == stale
    ensures Layout(now, base, g, fs + [Frame(ret, args + stale, [])]) && now[..g] == bytes[..g]
  {
    hide Layout, FrameAt, FrameStart, ReadWord;
    LayoutFits(bytes, base, g, fs);
    LastBytes(bytes, base, g, fs);
    WordKept(header, now, s, s + HEADER);
    var from, mid, to := s + HEADER, s + HEADER + |args|, s + HEADER + |args| + |stale|;
    assert now[from..to] == now[from..mid] + now[mid..to];
    EnterLayout(bytes, now, base, g, fs, Frame(ret, args + stale, []));
  }

  lemma AboveFrame(g: nat, fs: seq<Frame>, f: Frame)
    ensures At(g, fs + [f], |fs|) == End(g, fs) && End(g, fs + [f]) == End(g, fs) + Size(f)
  {
    assert fs[..|fs|] == (fs + [f])[..|fs|];
    StartAgrees(fs, fs + [f], |fs|);
  }

  lemma LowerEnd(g: nat, fs: seq<Frame>)
    requires |fs| > 1
    ensures End(g, fs[..|fs| - 1]) + HEADER + 1 <= End(g, fs)
  {
    var k := |fs| - 1;
    assert fs[..k] == fs[..k][..k];
    StartAgrees(fs, fs[..k], k);
  }

  lemma WordKept(bytes: seq<Byte>, now: seq<Byte>, at: nat, end: nat)
    requires at + HEADER <= end <= |bytes| == |now| && forall x :: at <= x < end ==> now[x] == bytes[x]
    ensures ReadWord(now, at) == ReadWord(bytes, at) && ReadWord(now, at + 2) == ReadWord(bytes, at + 2)
    ensures ReadWord(now, at + 4) == ReadWord(bytes, at + 4)
  {
  }

  lemma HeaderWritten(bytes: seq<Byte>, at: nat, a: Word, b: Word, c: Word)
    requires at + HEADER <= |bytes|
    requires bytes[at] == Lo(a) && bytes[at + 1] == Hi(a) && bytes[at + 2] == Lo(b) && bytes[at + 3] == Hi(b)
    requires bytes[at + 4] == Lo(c) && bytes[at + 5] == Hi(c)
    ensures ReadWord(bytes, at) == a && ReadWord(bytes, at + 2) == b && ReadWord(bytes, at + 4) == c
  {
  }

  lemma DropNothing(fs: seq<Frame>)
    requires fs != []
    ensures WithOps(fs, Drop(Ops(fs), 0)) == fs && Ops(fs)[|Ops(fs)|..] == []
  {
    assert Drop(Ops(fs), 0) == Ops(fs);
  }

  lemma DropMore(fs: seq<Frame>, n: nat)
    requires fs != [] && n < |Ops(fs)|
    ensures var ops := Ops(fs); var gs := WithOps(fs, Drop(ops, n));
            && |Ops(gs)| == |ops| - n && WithOps(gs, Drop(Ops(gs), 1)) == WithOps(fs, Drop(ops, n + 1))
            && [TopByte(Ops(gs), 0)] + ops[|ops| - n..] == ops[|ops| - (n + 1)..]
  {
    assert Drop(Drop(Ops(fs), n), 1) == Drop(Ops(fs), n + 1);
  }

  lemma DropTwice(fs: seq<Frame>, a: nat, b: nat)
    requires fs != [] && a + b <= |Ops(fs)|
    ensures var gs := WithOps(fs, Drop(Ops(fs), a));
            WithOps(gs, Drop(Ops(gs), b)) == WithOps(fs, Drop(Ops(fs), a + b))
    ensures Drop(Drop(Ops(fs), a), b) == Drop(Ops(fs), a + b)
  {
    assert Drop(Drop(Ops(fs), a), b) == Drop(Ops(fs), a + b);
  }

  lemma OpsReplaced(fs: seq<Frame>, x: seq<Byte>, y: seq<Byte>)
    requires fs != []
    ensures WithOps(WithOps(fs, x), y) == WithOps(fs, y) && Ops(WithOps(fs, x)) == x
  {
  }

  lemma OpsTwice(fs: seq<Frame>, lo: Byte, hi: Byte)
    requires fs != []
    ensures var gs := WithOps(fs, Ops(fs) + [lo]);
            WithOps(gs, Ops(gs) + [hi]) == WithOps(fs, Ops(fs) + [lo, hi])
  {
    assert Ops(fs) + [lo] + [hi] == Ops(fs) + [lo, hi];
  }
}
