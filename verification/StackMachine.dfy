/**
 * The program interpreter as a structured machine (interpreter.c): a list of frames, each with
 * its locals and its operand stack, instead of one array of bytes with saved pointers.
 */
module StackMachine {
  import opened Bytes
  import opened ExtraReport

  const STACK_SIZE: nat := 96
  const HEADER: nat := 6                // return address, return stack and previous frame
  const SPECIAL_KEYS: Byte := 0xE8      // keys from here on never reach the keyboard report

  datatype Frame = Frame(ret: Word, locals: seq<Byte>, operands: seq<Byte>)

  /** The space a frame takes on the byte stack; one byte between locals and operands is unused. */
  function Size(f: Frame): nat { HEADER + |f.locals| + 1 + |f.operands| }

  function FrameStart(fs: seq<Frame>, i: nat): nat
    requires i <= |fs|
  {
    if i == 0 then 0 else FrameStart(fs, i - 1) + Size(fs[i - 1])
  }

  // ---- the last frame ----

  function Drop(ops: seq<Byte>, n: nat): seq<Byte>
    requires n <= |ops|
  {
    ops[..|ops| - n]
  }

  function Ops(fs: seq<Frame>): seq<Byte>
    requires fs != []
  {
    fs[|fs| - 1].operands
  }

  function Locals(fs: seq<Frame>): seq<Byte>
    requires fs != []
  {
    fs[|fs| - 1].locals
  }

  function Ret(fs: seq<Frame>): Word
    requires fs != []
  {
    fs[|fs| - 1].ret
  }

  function WithOps(fs: seq<Frame>, ops: seq<Byte>): seq<Frame>
    requires fs != []
  {
    fs[|fs| - 1 := fs[|fs| - 1].(operands := ops)]
  }

  function WithLocals(fs: seq<Frame>, locals: seq<Byte>): seq<Frame>
    requires fs != []
  {
    fs[|fs| - 1 := fs[|fs| - 1].(locals := locals)]
  }

  /** The last n operand bytes become the first locals of a new frame; the stale bytes are its other locals. */
  function CallFrames(fs: seq<Frame>, n: nat, ret: Word, stale: seq<Byte>): seq<Frame>
    requires fs != [] && n <= |Ops(fs)|
  {
    WithOps(fs, Drop(Ops(fs), n)) + [Frame(ret, Ops(fs)[|Ops(fs)| - n..] + stale, [])]
  }

  /** The last frame goes; its last n operand bytes go to the frame below. */
  function ReturnFrames(fs: seq<Frame>, n: nat): seq<Frame>
    requires |fs| > 1 && n <= |Ops(fs)|
  {
    var below := fs[..|fs| - 1];
    WithOps(below, Ops(below) + Ops(fs)[|Ops(fs)| - n..])
  }

  /** The first frame is main's; only its return address is zero. */
  ghost predicate Rooted(fs: seq<Frame>) {
    fs != [] && forall i :: 0 <= i < |fs| ==> (fs[i].ret == 0 <==> i == 0)
  }

  lemma RootedKept(fs: seq<Frame>, ops: seq<Byte>, locals: seq<Byte>)
    requires Rooted(fs)
    ensures Rooted(WithOps(fs, ops)) && Rooted(WithLocals(fs, locals)) && (|fs| == 1 <==> Ret(fs) == 0)
  {
  }

  lemma RootedCall(fs: seq<Frame>, n: nat, ret: Word, stale: seq<Byte>)
    requires Rooted(fs) && n <= |Ops(fs)| && ret != 0
    ensures Rooted(CallFrames(fs, n, ret, stale))
  {
  }

  lemma RootedReturn(fs: seq<Frame>, n: nat)
    requires Rooted(fs) && n <= |Ops(fs)| && Ret(fs) != 0
    ensures |fs| > 1 && Rooted(ReturnFrames(fs, n))
  {
  }

  datatype Status =
    | Stopped | Crashed | NoProgram | Running | WaitReport | WaitMouseReport | Delaying | WaitKey | WaitPhysKey

  datatype Machine = Machine(status: Status, ip: Word, globals: seq<Byte>, frames: seq<Frame>,
                             delayEnd: nat, waitKey: Byte, trigger: Byte, side: Side)

  predicate Halted(s: Status) { s.Stopped? || s.Crashed? || s.NoProgram? }

  /** The index of the topmost stack byte. */
  function Top(m: Machine): int { |m.globals| + FrameStart(m.frames, |m.frames|) - 1 }

  // ---- the program image ----

  datatype Method = Method(nargs: Byte, nlocals: Byte, offset: Word)

  /** Program storage and the address of a program header in it: globals, methods, then a table of methods. */
  datatype Program = Program(storage: seq<Byte>, at: nat)

  predicate ProgramFits(p: Program) {
    p.at + 6 <= |p.storage| < 0x1_0000
  }

  /** Bytecode follows the method table. */
  function CodeStart(p: Program): nat
    requires ProgramFits(p)
  {
    p.at + 2 + 4 * (p.storage[p.at + 1] as int)
  }

  /** Method numbers are signed bytes. */
  function MethodAt(p: Program, id: Byte): int { p.at + 2 + 4 * Signed8(id) }

  function MethodOf(p: Program, id: Byte): Method
    requires 0 <= MethodAt(p, id) && MethodAt(p, id) + 4 <= |p.storage|
  {
    var at := MethodAt(p, id);
    Method(p.storage[at], p.storage[at + 1], MakeWord(p.storage[at + 2], p.storage[at + 3]))
  }

  // ---- instructions ----

  datatype Operand = Inline(value: Byte) | Following

  datatype BinaryOp = Add | Subtract | Multiply | Divide | Mod | And | Or | Xor

  datatype Condition = Eq | Ne | Lt | Gt | Ge | Le

  datatype Instr =
    | Local(store: bool, wide: bool, slot: Operand)
    | Global(store: bool, wide: bool)
    | Const(wide: bool, value: Operand)
    | Dup(wide: bool) | Pop(n: nat) | Swap
    | Binary(op: BinaryOp, wide: bool) | Not(wide: bool) | Compare(wide: bool) | Shift(left: bool, wide: bool)
    | Widen | Narrow
    | Branch(cond: Condition) | Goto | Nop | Call | Return(width: nat) | Exit
    | PressKey | ReleaseKey | CheckKey | CheckPhysKey | Wait(physical: bool) | Delay
    | Uptime(seconds: bool) | Buzz(pitched: bool) | MoveMouse | MouseButtons

  /** The short forms of an instruction carry a value of 0 to 3 in the opcode. */
  function Short(form: nat): Operand
    requires form < 5
  {
    if form == 0 then Following else Inline(form - 1)
  }

  function BinaryOpOf(k: nat): BinaryOp
    requires k < 8
  {
    [Add, Subtract, Multiply, Divide, Mod, And, Or, Xor][k]
  }

  function ConditionOf(k: nat): Condition
    requires k < 6
  {
    [Eq, Ne, Lt, Gt, Ge, Le][k]
  }

  /** Unassigned opcodes do nothing. */
  function Decode(b: Byte): Instr {
    if b < 5 then Local(true, false, Short(b))
    else if b < 10 then Local(true, true, Short(b - 5))
    else if b < 15 then Local(false, false, Short(b - 10))
    else if b < 20 then Local(false, true, Short(b - 15))
    else if b == 20 then Global(true, false) else if b == 21 then Global(false, false)
    else if b == 22 then Global(true, true) else if b == 23 then Global(false, true)
    else if b < 29 then Const(false, Short(b - 24))
    else if b < 34 then Const(true, Short(b - 29))
    else if b == 34 then Dup(false) else if b == 35 then Dup(true)
    else if b == 36 then Pop(1) else if b == 37 then Pop(2) else if b == 38 then Swap
    else if 48 <= b <= 55 then Binary(BinaryOpOf(b - 48), false)
    else if b == 56 then Not(false) else if b == 57 then Compare(false)
    else if b == 58 then Shift(true, false) else if b == 59 then Shift(false, false)
    else if 60 <= b <= 67 then Binary(BinaryOpOf(b - 60), true)
    else if b == 68 then Not(true) else if b == 69 then Compare(true)
    else if b == 70 then Shift(true, true) else if b == 71 then Shift(false, true)
    else if b == 72 then Widen else if b == 73 then Narrow
    else if 74 <= b <= 79 then Branch(ConditionOf(b - 74))
    else if b == 80 then Goto else if b == 82 then Call
    else if b == 83 then Return(1) else if b == 84 then Return(2) else if b == 85 then Return(0)
    else if b == 86 then Exit
    else if b == 87 then PressKey else if b == 88 then ReleaseKey
    else if b == 89 then CheckKey else if b == 90 then CheckPhysKey
    else if b == 91 then Wait(false) else if b == 92 then Wait(true)
    else if b == 95 then Delay else if b == 96 then Uptime(false) else if b == 97 then Uptime(true)
    else if b == 98 then Buzz(false) else if b == 99 then Buzz(true)
    else if b == 100 then MoveMouse else if b == 101 || b == 102 then MouseButtons
    else Nop
  }

  /** Bytes of code that follow the opcode. */
  function Immediates(i: Instr): nat {
    match i
    case Local(_, _, slot) => if slot.Following? then 1 else 0
    case Global(_, _) => 1
    case Const(wide, value) => if value.Inline? then 0 else Width(wide)
    case Branch(_) => 2
    case Goto => 2
    case Call => 1
    case _ => 0
  }

  function Width(wide: bool): nat { if wide then 2 else 1 }

  /** Operand bytes an instruction takes off the stack of its own frame. */
  function Pops(i: Instr): nat {
    match i
    case Local(store, wide, _) => if store then Width(wide) else 0
    case Global(store, wide) => if store then Width(wide) else 0
    case Dup(wide) => Width(wide)
    case Pop(n) => n
    case Swap => 2
    case Binary(_, wide) => 2 * Width(wide)
    case Not(wide) => Width(wide)
    case Compare(wide) => 2 * Width(wide)
    case Shift(_, wide) => 1 + Width(wide)
    case Widen => 1
    case Narrow => 2
    case Branch(_) => 1
    case Return(width) => width
    case PressKey => 1
    case ReleaseKey => 1
    case CheckKey => 1
    case CheckPhysKey => 1
    case Wait(_) => 3
    case Delay => 2
    case Buzz(pitched) => if pitched then 3 else 2
    case MoveMouse => 2
    case MouseButtons => 1
    case _ => 0
  }

  /** Operand bytes it puts back. */
  function Pushes(i: Instr): nat {
    match i
    case Local(store, wide, _) => if store then 0 else Width(wide)
    case Global(store, wide) => if store then 0 else Width(wide)
    case Const(wide, _) => Width(wide)
    case Dup(wide) => 2 * Width(wide)
    case Swap => 2
    case Binary(_, wide) => Width(wide)
    case Not(wide) => Width(wide)
    case Compare(_) => 1
    case Shift(_, wide) => Width(wide)
    case Widen => 2
    case Narrow => 1
    case CheckKey => 1
    case CheckPhysKey => 1
    case Uptime(_) => 2
    case _ => 0
  }

  // ---- arithmetic ----

  function Pow2(n: nat): (r: nat)
    ensures r > 0
  {
    if n == 0 then 1 else 2 * Pow2(n - 1)
  }

  /** C's division, which truncates towards zero. */
  function TruncDiv(a: int, b: int): int
    requires b != 0
  {
    var q := (if a < 0 then -a else a) / (if b < 0 then -b else b);
    if (a < 0) == (b < 0) then q else -q
  }

  function Arithmetic(op: BinaryOp, a: int, b: int): int
    requires op.Divide? || op.Mod? ==> b != 0
    requires !op.And? && !op.Or? && !op.Xor?
  {
    match op
    case Add => a + b
    case Subtract => a - b
    case Multiply => a * b
    case Divide => TruncDiv(a, b)
    case Mod => a - b * TruncDiv(a, b)
  }

  predicate Bitwise(op: BinaryOp) { op.And? || op.Or? || op.Xor? }

  function Bits8(op: BinaryOp, a: bv8, b: bv8): bv8 {
    if op.And? then a & b else if op.Or? then a | b else a ^ b
  }

  function Bits16(op: BinaryOp, a: bv16, b: bv16): bv16 {
    if op.And? then a & b else if op.Or? then a | b else a ^ b
  }

  function ByteResult(op: BinaryOp, a: Byte, b: Byte): Byte
    requires op.Divide? || op.Mod? ==> b != 0
  {
    if Bitwise(op) then Bits8(op, a as bv8, b as bv8) as int
    else Wrap8(Arithmetic(op, Signed8(a), Signed8(b)))
  }

  function WordResult(op: BinaryOp, a: Word, b: Word): Word
    requires op.Divide? || op.Mod? ==> b != 0
  {
    if Bitwise(op) then Bits16(op, a as bv16, b as bv16) as int
    else Wrap16(Arithmetic(op, Signed16(a), Signed16(b)))
  }

  function Comparison(a: int, b: int): Byte { if a > b then 1 else if a == b then 0 else 255 }

  /** Right shifts keep the sign. */
  function Shifted(left: bool, v: int, s: nat): int {
    if left then v * Pow2(s) else v / Pow2(s)
  }

  predicate Satisfies(c: Condition, v: int) {
    match c
    case Eq => v == 0
    case Ne => v != 0
    case Lt => v < 0
    case Gt => v > 0
    case Ge => v >= 0
    case Le => v <= 0
  }

  // ---- operands ----

  /** The byte k places below the top. */
  function TopByte(ops: seq<Byte>, k: nat): Byte
    requires k < |ops|
  {
    ops[|ops| - 1 - k]
  }

  /** The word whose upper byte is k places below the top. */
  function TopWord(ops: seq<Byte>, k: nat): Word
    requires k + 1 < |ops|
  {
    MakeWord(ops[|ops| - 2 - k], ops[|ops| - 1 - k])
  }

  /** Instructions that only rearrange or compute operands. */
  predicate OnOperands(i: Instr) {
    i.Dup? || i.Pop? || i.Swap? || i.Binary? || i.Not? || i.Compare? || i.Shift? || i.Widen? || i.Narrow?
  }

  /** Division by zero and shifts by more than an int are undefined. */
  predicate Defined(i: Instr, ops: seq<Byte>)
    requires Pops(i) <= |ops|
  {
    match i
    case Binary(op, wide) => op.Divide? || op.Mod? ==> if wide then TopWord(ops, 0) != 0 else TopByte(ops, 0) != 0
    case Shift(_, _) => 0 <= Signed8(TopByte(ops, 0)) < 16
    case _ => true
  }

  function BinaryOn(op: BinaryOp, wide: bool, ops: seq<Byte>): (r: seq<Byte>)
    requires 2 * Width(wide) <= |ops| && Defined(Binary(op, wide), ops)
    ensures |r| == |ops| - Width(wide)
  {
    if wide then Drop(ops, 4) + WordBytes(WordResult(op, TopWord(ops, 2), TopWord(ops, 0)))
    else Drop(ops, 2) + [ByteResult(op, TopByte(ops, 1), TopByte(ops, 0))]
  }

  function ShiftOn(left: bool, wide: bool, ops: seq<Byte>): (r: seq<Byte>)
    requires 1 + Width(wide) <= |ops| && Defined(Shift(left, wide), ops)
    ensures |r| == |ops| - 1
  {
    var s := Signed8(TopByte(ops, 0));
    if wide then Drop(ops, 3) + WordBytes(Wrap16(Shifted(left, Signed16(TopWord(ops, 1)), s)))
    else Drop(ops, 2) + [Wrap8(Shifted(left, Signed8(TopByte(ops, 1)), s))]
  }

  function CompareOn(wide: bool, ops: seq<Byte>): (r: seq<Byte>)
    requires 2 * Width(wide) <= |ops|
    ensures |r| == |ops| - 2 * Width(wide) + 1
  {
    if wide then Drop(ops, 4) + [Comparison(Signed16(TopWord(ops, 2)), Signed16(TopWord(ops, 0)))]
    else Drop(ops, 2) + [Comparison(Signed8(TopByte(ops, 1)), Signed8(TopByte(ops, 0)))]
  }

  function NotOn(wide: bool, ops: seq<Byte>): (r: seq<Byte>)
    requires Width(wide) <= |ops|
    ensures |r| == |ops|
  {
    if wide then Drop(ops, 2) + WordBytes(0xFFFF - TopWord(ops, 0)) else Drop(ops, 1) + [255 - TopByte(ops, 0)]
  }

  function DupOn(wide: bool, ops: seq<Byte>): (r: seq<Byte>)
    requires Width(wide) <= |ops|
    ensures |r| == |ops| + Width(wide)
  {
    if wide then ops + WordBytes(TopWord(ops, 0)) else ops + [TopByte(ops, 0)]
  }

  function SwapOn(ops: seq<Byte>): (r: seq<Byte>)
    requires 2 <= |ops|
    ensures |r| == |ops|
  {
    Drop(ops, 2) + [TopByte(ops, 0), TopByte(ops, 1)]
  }

  /** Widening extends the sign. */
  function WidenOn(ops: seq<Byte>): (r: seq<Byte>)
    requires 1 <= |ops|
    ensures |r| == |ops| + 1
  {
    Drop(ops, 1) + WordBytes(Wrap16(Signed8(TopByte(ops, 0))))
  }

  function NarrowOn(ops: seq<Byte>): (r: seq<Byte>)
    requires 2 <= |ops|
    ensures |r| == |ops| - 1
  {
    Drop(ops, 2) + [Lo(TopWord(ops, 0))]
  }

  function Computed(i: Instr, ops: seq<Byte>): seq<Byte>
    requires OnOperands(i) && Pops(i) <= |ops| && Defined(i, ops)
  {
    match i
    case Dup(wide) => DupOn(wide, ops)
    case Pop(n) => Drop(ops, n)
    case Swap => SwapOn(ops)
    case Binary(op, wide) => BinaryOn(op, wide, ops)
    case Not(wide) => NotOn(wide, ops)
    case Compare(wide) => CompareOn(wide, ops)
    case Shift(left, wide) => ShiftOn(left, wide, ops)
    case Widen => WidenOn(ops)
    case Narrow => NarrowOn(ops)
  }

  // ---- one step ----

  /** What a step sees of the keyboard: uptime, which physical keys are down and which codes are being sent. */
  datatype Input = Input(now: nat, pressed: Byte -> bool, sending: Byte -> Byte)

  function Operands(m: Machine): seq<Byte>
    requires m.frames != []
  {
    Ops(m.frames)
  }

  function WithOperands(m: Machine, ops: seq<Byte>): Machine
    requires m.frames != []
  {
    m.(frames := WithOps(m.frames, ops))
  }

  /** The instruction and the bytes that follow it lie in program storage. */
  predicate Fetchable(p: Program, ip: Word) {
    && ProgramFits(p) && ip < |p.storage|
    && ip + 1 + Immediates(Decode(p.storage[ip])) <= |p.storage|
  }

  function InstrAt(p: Program, ip: Word): Instr
    requires Fetchable(p, ip)
  {
    Decode(p.storage[ip])
  }

  function OperandOf(p: Program, ip: Word, o: Operand): Byte
    requires ip + (if o.Following? then 1 else 0) < |p.storage|
  {
    if o.Inline? then o.value else p.storage[ip + 1]
  }

  /** Variables [at, at + width) exist. */
  predicate SlotExists(vars: seq<Byte>, at: nat, wide: bool) {
    at + Width(wide) <= |vars|
  }

  function StoreIn(vars: seq<Byte>, at: nat, wide: bool, ops: seq<Byte>): (r: seq<Byte>)
    requires SlotExists(vars, at, wide) && Width(wide) <= |ops|
    ensures |r| == |vars|
  {
    if wide then vars[at := Lo(TopWord(ops, 0))][at + 1 := Hi(TopWord(ops, 0))] else vars[at := TopByte(ops, 0)]
  }

  function LocalFrames(fs: seq<Frame>, store: bool, wide: bool, at: nat): seq<Frame>
    requires fs != [] && SlotExists(Locals(fs), at, wide) && (store ==> Width(wide) <= |Ops(fs)|)
  {
    if store then WithLocals(WithOps(fs, Drop(Ops(fs), Width(wide))), StoreIn(Locals(fs), at, wide, Ops(fs)))
    else WithOps(fs, Ops(fs) + LoadFrom(Locals(fs), at, wide))
  }

  function LoadFrom(vars: seq<Byte>, at: nat, wide: bool): seq<Byte>
    requires SlotExists(vars, at, wide)
  {
    vars[at..at + Width(wide)]
  }

  /** A return from main stops the program without looking at its operands. */
  predicate EndsMain(m: Machine, i: Instr)
    requires m.frames != []
  {
    i.Return? && Ret(m.frames) == 0
  }

  /** What the code must keep to at this instruction: its own locals, operands and globals. */
  predicate Supplied(p: Program, m: Machine) {
    && m.frames != [] && Fetchable(p, m.ip)
    && var i := InstrAt(p, m.ip);
    && (EndsMain(m, i) || (Pops(i) <= |Operands(m)| && Defined(i, Operands(m))))
    && match i
       case Local(_, wide, slot) => SlotExists(Locals(m.frames), OperandOf(p, m.ip, slot), wide)
       case Global(_, wide) => SlotExists(m.globals, p.storage[m.ip + 1], wide)
       case Call =>
         var id := p.storage[m.ip + 1];
         && 0 <= MethodAt(p, id) && MethodAt(p, id) + 4 <= |p.storage|
         && MethodOf(p, id).nargs <= MethodOf(p, id).nlocals && MethodOf(p, id).nargs as int <= |Operands(m)|
       case _ => true
  }

  /** The bytes an instruction leaves on the stack, less those it found. */
  function Growth(p: Program, m: Machine): int
    requires Supplied(p, m)
  {
    var i := InstrAt(p, m.ip);
    match i
    case Call =>
      var callee := MethodOf(p, p.storage[m.ip + 1]);
      callee.nlocals - callee.nargs + HEADER + 1
    case Return(width) => if EndsMain(m, i) then 0 else width - Size(m.frames[|m.frames| - 1])
    case _ => Pushes(i) - Pops(i)
  }

  /**
   * The highest stack byte that an instruction may write. A call writes the header of the new
   * frame and the arguments, which came off the stack; it leaves the other locals as they are.
   */
  function Reach(p: Program, m: Machine): int
    requires Supplied(p, m)
  {
    if InstrAt(p, m.ip).Call? then Top(m) + HEADER else Top(m) + Growth(p, m)
  }

  /** The instruction writes inside the stack. */
  predicate Safe(p: Program, m: Machine) {
    Supplied(p, m) && Reach(p, m) < STACK_SIZE
  }

  function Jump(p: Program, ip: Word): Word
    requires ip + 3 <= |p.storage|
  {
    Wrap16(ip + Signed16(MakeWord(p.storage[ip + 1], p.storage[ip + 2])))
  }

  /** The number of locals of the frame a call makes that no argument fills. */
  function StaleLocals(p: Program, m: Machine): nat
    requires Safe(p, m)
  {
    if InstrAt(p, m.ip).Call?
    then MethodOf(p, p.storage[m.ip + 1]).nlocals - MethodOf(p, p.storage[m.ip + 1]).nargs else 0
  }

  predicate SystemInstr(i: Instr) {
    i.PressKey? || i.ReleaseKey? || i.CheckKey? || i.CheckPhysKey? || i.Wait? || i.Delay? || i.Uptime? || i.Buzz?
    || i.MoveMouse? || i.MouseButtons?
  }

  predicate KeyCall(i: Instr) { i.PressKey? || i.ReleaseKey? || i.CheckKey? || i.CheckPhysKey? }

  /** System calls, after the opcode has been fetched. */
  function SystemCall(m: Machine, i: Instr, env: Input): Machine
    requires SystemInstr(i) && m.frames != [] && Pops(i) <= |Operands(m)|
  {
    var ops := Operands(m);
    match i
    case PressKey =>
      var t := WithOperands(m, Drop(ops, 1));
      if TopByte(ops, 0) >= SPECIAL_KEYS then t else t.(side := Pressed(m.side, TopByte(ops, 0)), status := WaitReport)
    case ReleaseKey =>
      WithOperands(m, Drop(ops, 1)).(side := Released(m.side, TopByte(ops, 0)), status := WaitReport)
    case CheckKey => WithOperands(m, Drop(ops, 1) + [if env.sending(TopByte(ops, 0)) != NO_KEY then 1 else 0])
    case CheckPhysKey =>
      var key := if TopByte(ops, 0) == 0 then m.trigger else TopByte(ops, 0);
      WithOperands(m, Drop(ops, 1) + [if env.pressed(key) then 1 else 0])
    case Wait(physical) =>
      var delay := Signed16(TopWord(ops, 0));
      WithOperands(m, Drop(ops, 3)).(status := if physical then WaitPhysKey else WaitKey, waitKey := TopByte(ops, 2),
                                     delayEnd := if delay <= 0 then 0 else env.now + delay)
    case Delay =>
      var delay := Signed16(TopWord(ops, 0));
      WithOperands(m, Drop(ops, 2)).(status := Delaying, delayEnd := env.now + if delay < 0 then 0 else delay)
    case Uptime(seconds) =>
      WithOperands(m, ops + WordBytes((if seconds then env.now / 1000 else env.now) % 0x8000))
    case Buzz(pitched) => WithOperands(m, Drop(ops, Pops(i)))
    case MoveMouse => WithOperands(m, Drop(ops, 2)).(status := WaitMouseReport)
    case MouseButtons => WithOperands(m, Drop(ops, 1)).(status := WaitMouseReport)
  }

  function ConstBytes(p: Program, at: nat, wide: bool, value: Operand): seq<Byte>
    requires at + Immediates(Const(wide, value)) <= |p.storage|
  {
    if value.Inline? then (if wide then WordBytes(value.value) else [value.value]) else p.storage[at..at + Width(wide)]
  }

  /** Variable and constant instructions, after the opcode has been fetched. */
  function Valued(p: Program, m: Machine, i: Instr): Machine
    requires i.Local? || i.Global? || i.Const?
    requires m.ip >= 1 && Safe(p, m.(ip := m.ip - 1)) && i == InstrAt(p, m.ip - 1)
  {
    var next := m.(ip := m.ip + Immediates(i));
    var ops := Ops(m.frames);
    match i
    case Local(store, wide, slot) =>
      next.(frames := LocalFrames(m.frames, store, wide, OperandOf(p, m.ip - 1, slot)))
    case Global(store, wide) =>
      var at := p.storage[m.ip];
      if store then WithOperands(next, Drop(ops, Width(wide))).(globals := StoreIn(m.globals, at, wide, ops))
      else WithOperands(next, ops + LoadFrom(m.globals, at, wide))
    case Const(wide, value) => WithOperands(next, ops + ConstBytes(p, m.ip, wide, value))
  }

  /** Control flow. */
  ghost function Continued(p: Program, m: Machine, i: Instr, stale: seq<Byte>): Machine
    requires i.Branch? || i.Goto? || i.Call? || i.Return? || i.Exit? || i.Nop?
    requires m.ip >= 1 && Safe(p, m.(ip := m.ip - 1)) && i == InstrAt(p, m.ip - 1) && Rooted(m.frames)
  {
    match i
    case Branch(cond) =>
      var taken := Satisfies(cond, Signed8(TopByte(Ops(m.frames), 0)));
      WithOperands(m, Drop(Ops(m.frames), 1)).(ip := if taken then Jump(p, m.ip - 1) else m.ip + 2)
    case Goto => m.(ip := Jump(p, m.ip - 1))
    case Call =>
      var callee := MethodOf(p, p.storage[m.ip]);
      m.(ip := Wrap16(CodeStart(p) + callee.offset), frames := CallFrames(m.frames, callee.nargs, m.ip + 1, stale))
    case Return(width) =>
      RootedKept(m.frames, [], []);
      if Ret(m.frames) == 0 then m.(status := Stopped)
      else m.(ip := Ret(m.frames), frames := ReturnFrames(m.frames, width))
    case Exit => m.(status := Stopped)
    case Nop => m
  }

  /** Fetches and executes one instruction. */
  ghost function Executed(p: Program, m: Machine, env: Input, stale: seq<Byte>): Machine
    requires Safe(p, m) && Rooted(m.frames)
  {
    var i := InstrAt(p, m.ip);
    var next := m.(ip := m.ip + 1);
    if OnOperands(i) then WithOperands(next, Computed(i, Operands(m)))
    else if SystemInstr(i) then SystemCall(next, i, env)
    else if i.Local? || i.Global? || i.Const? then Valued(p, next, i)
    else Continued(p, next, i, stale)
  }

  /** The end of a wait pushes its result. */
  function WaitOver(m: Machine, result: Byte): Machine
    requires m.frames != []
  {
    WithOperands(m, Operands(m) + [result]).(delayEnd := 0, status := Running)
  }

  predicate TimedOut(m: Machine, env: Input) { m.delayEnd != 0 && env.now > m.delayEnd }

  /** Whether this step fetches an instruction. */
  predicate Executes(m: Machine, env: Input) {
    Top(m) <= STACK_SIZE - 2 && (m.status.Running? || (m.status.Delaying? && env.now > m.delayEnd))
  }

  /** A step of a machine that waits for a key. */
  function Waited(m: Machine, env: Input): Machine
    requires m.frames != []
  {
    if m.status.WaitPhysKey? then
      var w := m.(waitKey := if m.waitKey == 0 then m.trigger else m.waitKey);
      if env.pressed(w.waitKey) then WaitOver(w, 1) else if TimedOut(w, env) then WaitOver(w, 0) else w
    else
      var r := env.sending(m.waitKey);
      if r != NO_KEY then WaitOver(m, r) else if TimedOut(m, env) then WaitOver(m, 0) else m
  }

  /** One call of the interpreter for a machine that is not halted. */
  ghost function Step(p: Program, m: Machine, env: Input, stale: seq<Byte>): Machine
    requires Rooted(m.frames) && (Executes(m, env) ==> Safe(p, m))
  {
    if Top(m) > STACK_SIZE - 2 then m.(status := Crashed)
    else if Executes(m, env) then
      Executed(p, if m.status.Delaying? then m.(status := Running, delayEnd := 0) else m, env, stale)
    else if m.status.WaitPhysKey? || m.status.WaitKey? then Waited(m, env)
    else m
  }

  /** The number of stale locals the step picks up. */
  function StaleAt(p: Program, m: Machine, env: Input): nat
    requires m.frames != [] && (Executes(m, env) ==> Safe(p, m))
  {
    if Executes(m, env) then StaleLocals(p, m) else 0
  }

  /** A machine at the beginning of main. */
  ghost predicate Started(p: Program, m: Machine, trigger: Byte)
    requires ProgramFits(p)
  {
    && m.status.Running? && m.trigger == trigger && |m.frames| == 1
    && Ret(m.frames) == 0 && |Locals(m.frames)| == p.storage[p.at + 3] && Ops(m.frames) == []
    && m.ip == Wrap16(CodeStart(p) + MakeWord(p.storage[p.at + 4], p.storage[p.at + 5]))
  }

  /** A filled report ends the wait for one. */
  function ReportFilled(m: Machine): Machine {
    if m.status.WaitReport? then m.(status := Running) else m
  }

  function MouseReportFilled(m: Machine): Machine {
    if m.status.WaitMouseReport? then m.(status := Running) else m
  }
}
