/**
 * How the frames of the structured machine lie in the interpreter's byte stack (interpreter.h):
 * globals first, then for each frame three saved words, the locals, one unused byte, the operands.
 */
module FrameLayout {
  import opened Bytes
  import opened StackMachine

  /** Addresses of stack bytes are stored as words: the address of the stack plus an index. */
  type Address = a: int | 0 < a && a + STACK_SIZE <= 0x1_0000 witness 1

  /** Where frame i begins. */
  function At(g: nat, fs: seq<Frame>, i: nat): nat
    requires i <= |fs|
  {
    g + FrameStart(fs, i)
  }

  function LocalsAt(g: nat, fs: seq<Frame>, i: nat): nat
    requires i < |fs|
  {
    At(g, fs, i) + HEADER
  }

  function OperandsAt(g: nat, fs: seq<Frame>, i: nat): nat
    requires i < |fs|
  {
    LocalsAt(g, fs, i) + |fs[i].locals| + 1
  }

  ghost predicate FrameAt(bytes: seq<Byte>, base: Address, g: nat, fs: seq<Frame>, i: nat)
    requires i < |fs|
  {
    && At(g, fs, i + 1) <= |bytes|
    && ReadWord(bytes, At(g, fs, i)) == fs[i].ret
    && (i > 0 ==> ReadWord(bytes, At(g, fs, i) + 2) == base + At(g, fs, i) - 1)
    && ReadWord(bytes, At(g, fs, i) + 4) == (if i == 0 then 0 else base + At(g, fs, i - 1))
    && bytes[LocalsAt(g, fs, i)..LocalsAt(g, fs, i) + |fs[i].locals|] == fs[i].locals
    && bytes[OperandsAt(g, fs, i)..At(g, fs, i + 1)] == fs[i].operands
  }

  ghost predicate Layout(bytes: seq<Byte>, base: Address, g: nat, fs: seq<Frame>) {
    && |bytes| == STACK_SIZE && fs != [] && At(g, fs, |fs|) <= STACK_SIZE
    && forall i :: 0 <= i < |fs| ==> FrameAt(bytes, base, g, fs, i)
  }

  lemma LayoutFits(bytes: seq<Byte>, base: Address, g: nat, fs: seq<Frame>)
    requires Layout(bytes, base, g, fs)
    ensures |bytes| == STACK_SIZE && fs != [] && At(g, fs, |fs|) <= STACK_SIZE
    ensures OperandsAt(g, fs, |fs| - 1) + |fs[|fs| - 1].operands| == At(g, fs, |fs|)
    ensures FrameAt(bytes, base, g, fs, |fs| - 1)
  {
  }

  lemma {:induction false} StartAgrees(fs: seq<Frame>, now: seq<Frame>, i: nat)
    requires i <= |fs| && i <= |now| && fs[..i] == now[..i]
    ensures FrameStart(fs, i) == FrameStart(now, i)
  {
    if i > 0 {
      assert fs[i - 1] == fs[..i][i - 1] == now[i - 1];
      assert fs[..i - 1] == fs[..i][..i - 1] && now[..i - 1] == now[..i][..i - 1];
      StartAgrees(fs, now, i - 1);
    }
  }

  lemma {:induction false} StartGrows(fs: seq<Frame>, i: nat, j: nat)
    requires i < j <= |fs|
    ensures FrameStart(fs, i) + Size(fs[i]) <= FrameStart(fs, j)
    decreases j
  {
    if i < j - 1 { StartGrows(fs, i, j - 1); }
  }

  /** A frame whose bytes have not changed still lies where it did, whatever lies above it. */
  lemma FrameCarried(bytes: seq<Byte>, now: seq<Byte>, base: Address, g: nat, fs: seq<Frame>, gs: seq<Frame>, i: nat)
    requires i < |fs| && i < |gs| && fs[..i + 1] == gs[..i + 1] && FrameAt(bytes, base, g, fs, i)
    requires |now| == |bytes| && now[At(g, fs, i)..At(g, fs, i + 1)] == bytes[At(g, fs, i)..At(g, fs, i + 1)]
    ensures FrameAt(now, base, g, gs, i)
  {
    hide FrameStart;
    var at, end := At(g, fs, i), At(g, fs, i + 1);
    assert fs[i] == fs[..i + 1][i] == gs[i];
    assert fs[..i] == fs[..i + 1][..i] && gs[..i] == gs[..i + 1][..i];
    StartAgrees(fs, gs, i);
    StartAgrees(fs, gs, i + 1);
    if i > 0 {
      assert fs[..i - 1] == fs[..i][..i - 1] && gs[..i - 1] == gs[..i][..i - 1];
      StartAgrees(fs, gs, i - 1);
    }
    NextStart(g, fs, i);
    SlicesAgree(bytes, now, at, end);
    SubSlice(bytes, now, at, end, LocalsAt(g, fs, i), LocalsAt(g, fs, i) + |fs[i].locals|);
    SubSlice(bytes, now, at, end, OperandsAt(g, fs, i), end);
  }

  lemma NextStart(g: nat, fs: seq<Frame>, i: nat)
    requires i < |fs|
    ensures At(g, fs, i + 1) == At(g, fs, i) + Size(fs[i]) == OperandsAt(g, fs, i) + |fs[i].operands|
  {
  }

  lemma SlicesAgree(bytes: seq<Byte>, now: seq<Byte>, at: nat, end: nat)
    requires at <= end <= |bytes| == |now| && now[at..end] == bytes[at..end]
    ensures forall x :: at <= x < end ==> now[x] == bytes[x]
  {
    forall x | at <= x < end
      ensures now[x] == bytes[x]
    {
      assert now[at..end][x - at] == bytes[at..end][x - at];
    }
  }

  lemma SubSlice(bytes: seq<Byte>, now: seq<Byte>, at: nat, end: nat, from: nat, to: nat)
    requires at <= from <= to <= end <= |bytes| == |now| && now[at..end] == bytes[at..end]
    ensures now[from..to] == bytes[from..to]
  {
    SlicesAgree(bytes, now, at, end);
  }

  /** Frames below the last one keep their place when only bytes from `from` on change. */
  lemma LowerFramesCarried(bytes: seq<Byte>, now: seq<Byte>, base: Address, g: nat, fs: seq<Frame>, gs: seq<Frame>,
                           n: nat)
    requires Layout(bytes, base, g, fs) && n <= |fs| && n <= |gs| && fs[..n] == gs[..n]
    requires |now| == |bytes| && At(g, fs, n) <= |now| && now[g..At(g, fs, n)] == bytes[g..At(g, fs, n)]
    ensures forall i :: 0 <= i < n ==> FrameAt(now, base, g, gs, i)
  {
    hide FrameStart, FrameAt;
    forall i | 0 <= i < n
      ensures FrameAt(now, base, g, gs, i)
    {
      assert FrameAt(bytes, base, g, fs, i);
      assert fs[..i + 1] == fs[..n][..i + 1] && gs[..i + 1] == gs[..n][..i + 1];
      NextStart(g, fs, i);
      EndsBelow(g, fs, i, n);
      SubSlice(bytes, now, g, At(g, fs, n), At(g, fs, i), At(g, fs, i + 1));
      FrameCarried(bytes, now, base, g, fs, gs, i);
    }
  }

  lemma EndsBelow(g: nat, fs: seq<Frame>, i: nat, n: nat)
    requires i < n <= |fs|
    ensures At(g, fs, i + 1) <= At(g, fs, n)
  {
    StartGrows(fs, i, n);
  }

  /** Only the last frame changed, and its bytes with it. */
  lemma LastChanged(bytes: seq<Byte>, now: seq<Byte>, base: Address, g: nat, fs: seq<Frame>, f: Frame)
    requires Layout(bytes, base, g, fs) && |now| == |bytes|
    requires var k := |fs| - 1;
             At(g, fs, k) <= |now| && now[g..At(g, fs, k)] == bytes[g..At(g, fs, k)]
             && FrameAt(now, base, g, fs[k := f], k)
    ensures Layout(now, base, g, fs[|fs| - 1 := f])
  {
    hide FrameStart, FrameAt;
    var k := |fs| - 1;
    var gs := fs[k := f];
    assert fs[..k] == gs[..k];
    LowerFramesCarried(bytes, now, base, g, fs, gs, k);
    FrameEnds(now, base, g, gs, k);
  }

  lemma FrameEnds(bytes: seq<Byte>, base: Address, g: nat, fs: seq<Frame>, i: nat)
    requires i < |fs| && FrameAt(bytes, base, g, fs, i)
    ensures At(g, fs, i + 1) <= |bytes|
  {
  }

  /** What FrameAt asks of the last frame, with the places worked out. */
  lemma LastFrame(bytes: seq<Byte>, now: seq<Byte>, base: Address, g: nat, fs: seq<Frame>, f: Frame)
    requires Layout(bytes, base, g, fs) && |now| == |bytes| && f.ret == fs[|fs| - 1].ret
    requires var k := |fs| - 1; var at := At(g, fs, k); var ops := at + HEADER + |f.locals| + 1;
             && ops + |f.operands| <= |now| && now[g..at + HEADER] == bytes[g..at + HEADER]
             && now[at + HEADER..at + HEADER + |f.locals|] == f.locals && now[ops..ops + |f.operands|] == f.operands
    ensures Layout(now, base, g, fs[|fs| - 1 := f])
  {
    hide FrameStart;
    var k := |fs| - 1;
    var gs, at := fs[k := f], At(g, fs, k);
    assert FrameAt(bytes, base, g, fs, k);
    assert fs[..k] == gs[..k];
    StartAgrees(fs, gs, k);
    NextStart(g, gs, k);
    if k > 0 {
      assert fs[..k - 1] == gs[..k - 1];
      StartAgrees(fs, gs, k - 1);
    }
    SlicesAgree(bytes, now, g, at + HEADER);
    SubSlice(bytes, now, g, at + HEADER, g, at);
    assert FrameAt(now, base, g, gs, k);
    LastChanged(bytes, now, base, g, fs, f);
  }

  /** One past the last operand. */
  function End(g: nat, fs: seq<Frame>): nat { At(g, fs, |fs|) }

  lemma EndWith(g: nat, fs: seq<Frame>, ops: seq<Byte>)
    requires fs != []
    ensures End(g, WithOps(fs, ops)) == End(g, fs) - |Ops(fs)| + |ops|
    ensures At(g, WithOps(fs, ops), |fs| - 1) == At(g, fs, |fs| - 1)
    ensures End(g, fs) == OperandsAt(g, fs, |fs| - 1) + |Ops(fs)|
  {
    var k := |fs| - 1;
    var gs := WithOps(fs, ops);
    assert fs[..k] == gs[..k];
    StartAgrees(fs, gs, k);
    NextStart(g, fs, k);
    NextStart(g, gs, k);
  }

  lemma EndWithLocals(g: nat, fs: seq<Frame>, locals: seq<Byte>)
    requires fs != [] && |locals| == |Locals(fs)|
    ensures End(g, WithLocals(fs, locals)) == End(g, fs)
    ensures At(g, WithLocals(fs, locals), |fs| - 1) == At(g, fs, |fs| - 1)
  {
    var k := |fs| - 1;
    var gs := WithLocals(fs, locals);
    assert fs[..k] == gs[..k];
    StartAgrees(fs, gs, k);
    NextStart(g, fs, k);
    NextStart(g, gs, k);
  }

  // ---- what a write to the stack does to the frames ----

  lemma PushLayout(bytes: seq<Byte>, base: Address, g: nat, fs: seq<Frame>, b: Byte)
    requires Layout(bytes, base, g, fs) && End(g, fs) < STACK_SIZE
    ensures Layout(bytes[End(g, fs) := b], base, g, WithOps(fs, Ops(fs) + [b]))
    ensures End(g, WithOps(fs, Ops(fs) + [b])) == End(g, fs) + 1
  {
    hide FrameStart, Layout, FrameAt;
    LayoutFits(bytes, base, g, fs);
    LastBytes(bytes, base, g, fs);
    EndWith(g, fs, Ops(fs) + [b]);
    LastFrame(bytes, bytes[End(g, fs) := b], base, g, fs, fs[|fs| - 1].(operands := Ops(fs) + [b]));
  }

  lemma DropLayout(bytes: seq<Byte>, base: Address, g: nat, fs: seq<Frame>, n: nat)
    requires Layout(bytes, base, g, fs) && n <= |Ops(fs)|
    ensures Layout(bytes, base, g, WithOps(fs, Drop(Ops(fs), n)))
    ensures End(g, WithOps(fs, Drop(Ops(fs), n))) == End(g, fs) - n
  {
    hide FrameStart, Layout, FrameAt;
    LayoutFits(bytes, base, g, fs);
    LastBytes(bytes, base, g, fs);
    EndWith(g, fs, Drop(Ops(fs), n));
    LastFrame(bytes, bytes, base, g, fs, fs[|fs| - 1].(operands := Drop(Ops(fs), n)));
  }

  /** Where the bytes of the last frame's locals and operands are. */
  lemma LastBytes(bytes: seq<Byte>, base: Address, g: nat, fs: seq<Frame>)
    requires Layout(bytes, base, g, fs)
    ensures var at, n := At(g, fs, |fs| - 1), |Locals(fs)|;
            && End(g, fs) == at + HEADER + n + 1 + |Ops(fs)| <= |bytes|
            && bytes[at + HEADER..at + HEADER + n] == Locals(fs) && bytes[at + HEADER + n + 1..End(g, fs)] == Ops(fs)
  {
    LayoutFits(bytes, base, g, fs);
  }

  lemma StoreLocalLayout(bytes: seq<Byte>, base: Address, g: nat, fs: seq<Frame>, a: nat, b: Byte)
    requires Layout(bytes, base, g, fs) && a < |Locals(fs)|
    ensures var x := At(g, fs, |fs| - 1) + HEADER + a;
            x < |bytes| && Layout(bytes[x := b], base, g, WithLocals(fs, Locals(fs)[a := b]))
  {
    hide FrameStart, Layout, FrameAt;
    LayoutFits(bytes, base, g, fs);
    LastBytes(bytes, base, g, fs);
    var x := At(g, fs, |fs| - 1) + HEADER + a;
    LastFrame(bytes, bytes[x := b], base, g, fs, fs[|fs| - 1].(locals := Locals(fs)[a := b]));
  }

  lemma StoreGlobalLayout(bytes: seq<Byte>, base: Address, g: nat, fs: seq<Frame>, a: nat, b: Byte)
    requires Layout(bytes, base, g, fs) && a < g
    ensures a < |bytes| && Layout(bytes[a := b], base, g, fs) && bytes[a := b][..g] == bytes[..g][a := b]
  {
    hide FrameStart, FrameAt;
    LowerFramesCarried(bytes, bytes[a := b], base, g, fs, fs, |fs|);
  }

  /** A new frame written right above the operands of the last one. */
  lemma EnterLayout(bytes: seq<Byte>, now: seq<Byte>, base: Address, g: nat, fs: seq<Frame>, f: Frame)
    requires Layout(bytes, base, g, fs) && |now| == |bytes| && f.operands == [] && End(g, fs) + Size(f) <= STACK_SIZE
    requires var s := End(g, fs);
             && now[g..s] == bytes[g..s] && ReadWord(now, s) == f.ret && ReadWord(now, s + 2) == base + s - 1
             && ReadWord(now, s + 4) == base + At(g, fs, |fs| - 1)
             && now[s + HEADER..s + HEADER + |f.locals|] == f.locals
    ensures Layout(now, base, g, fs + [f]) && At(g, fs + [f], |fs|) == End(g, fs)
    ensures End(g, fs + [f]) == End(g, fs) + Size(f)
  {
    hide FrameStart;
    var gs, n := fs + [f], |fs|;
    assert fs[..n] == gs[..n] && fs[..n - 1] == gs[..n - 1];
    StartAgrees(fs, gs, n);
    StartAgrees(fs, gs, n - 1);
    NextStart(g, gs, n);
    LowerFramesCarried(bytes, now, base, g, fs, gs, n);
    assert FrameAt(now, base, g, gs, n);
  }

  /** Dropping the last frame; its saved words say where the one below ends and begins. */
  lemma LeaveLayout(bytes: seq<Byte>, base: Address, g: nat, fs: seq<Frame>)
    requires Layout(bytes, base, g, fs) && |fs| > 1
    ensures var k := |fs| - 1; var at := At(g, fs, k);
            && at + HEADER <= |bytes| && ReadWord(bytes, at) == fs[k].ret
            && ReadWord(bytes, at + 2) == base + End(g, fs[..k]) - 1
            && ReadWord(bytes, at + 4) == base + At(g, fs[..k], k - 1)
    ensures Layout(bytes, base, g, fs[..|fs| - 1])
  {
    hide FrameStart;
    var k := |fs| - 1;
    var gs := fs[..k];
    assert fs[..k] == gs[..k] && fs[..k - 1] == gs[..k - 1];
    StartAgrees(fs, gs, k);
    StartAgrees(fs, gs, k - 1);
    NextStart(g, fs, k);
    LowerFramesCarried(bytes, bytes, base, g, fs, gs, k);
    assert FrameAt(bytes, base, g, fs, k);
  }

  /** The one frame a started program has. */
  lemma MainLayout(bytes: seq<Byte>, base: Address, g: nat, n: nat)
    requires |bytes| == STACK_SIZE && g + HEADER + n + 1 <= STACK_SIZE && ReadWord(bytes, g) == 0
    requires ReadWord(bytes, g + 4) == 0
    ensures var f := Frame(0, bytes[g + HEADER..g + HEADER + n], []);
            Layout(bytes, base, g, [f]) && End(g, [f]) == g + HEADER + n + 1 && At(g, [f], 0) == g
  {
    hide ReadWord, FrameStart;
    var f := Frame(0, bytes[g + HEADER..g + HEADER + n], []);
    OneFrame(f);
  }

  lemma OneFrame(f: Frame)
    ensures FrameStart([f], 0) == 0 && FrameStart([f], 1) == Size(f)
  {
    assert FrameStart([f], 1) == FrameStart([f], 0) + Size(f);
  }
}
