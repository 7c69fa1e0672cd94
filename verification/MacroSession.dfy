/**
 * The macro store as its user sees it: a finite map from key combinations to macros and
 * programs, and at most one macro being recorded. The byte-level store refines this.
 */
module MacroSession {
  import opened Bytes
  import opened MacroIndex
  import opened MacroHeap

  datatype Op = StartMacro(key: Keys) | Append(event: Byte) | CommitMacro | AbortMacro | ResetFully

  datatype Take = Take(key: Keys, events: seq<Byte>)

  /** What is bound, what is being recorded, and what a full reset binds. */
  datatype Session = Session(bound: map<Keys, Content>, take: Option<Take>, defaults: map<Keys, Content>)

  /** The order in which the recording states issue the operations. */
  predicate Allowed(s: Session, op: Op) {
    match op
    case StartMacro(key) => s.take.None? && key[0] != NO_KEY
    case Append(_) => s.take.Some?
    case CommitMacro => true
    case AbortMacro => s.take.Some?
    case ResetFully => s.take.None?
  }

  function Step(s: Session, op: Op, capacity: nat): Session {
    match op
    case StartMacro(key) =>
      if key in s.bound || |s.bound| < capacity then s.(bound := s.bound - {key}, take := Some(Take(key, []))) else s
    case Append(event) =>
      if s.take.Some? then s.(take := Some(Take(s.take.value.key, s.take.value.events + [event]))) else s
    case CommitMacro =>
      if s.take.None? then s
      else if s.take.value.events == [] then s.(take := None)
      else s.(bound := s.bound[s.take.value.key := Events(s.take.value.events)], take := None)
    case AbortMacro => s.(take := None)
    case ResetFully => s.(bound := s.defaults, take := None)
  }

  function RunAll(s: Session, ops: seq<Op>, capacity: nat): Session {
    if ops == [] then s else Step(RunAll(s, ops[..|ops| - 1], capacity), ops[|ops| - 1], capacity)
  }

  predicate TakesKey(s: Session, k: Keys) {
    s.take.Some? && s.take.value.key == k
  }

  function BoundTo(bound: map<Keys, Content>, k: Keys): Option<Content> {
    if k in bound then Some(bound[k]) else None
  }

  /** What a key is bound to when none of the operations records it: only a full reset can change that. */
  function Unrecorded(s: Session, ops: seq<Op>, k: Keys): Option<Content> {
    if ops == [] then BoundTo(s.bound, k)
    else if ops[|ops| - 1].ResetFully? then BoundTo(s.defaults, k)
    else Unrecorded(s, ops[..|ops| - 1], k)
  }

  lemma StepKeepsKey(s: Session, op: Op, capacity: nat, k: Keys)
    requires !TakesKey(s, k) && op != StartMacro(k)
    ensures var t := Step(s, op, capacity);
            && !TakesKey(t, k) && t.defaults == s.defaults
            && BoundTo(t.bound, k) == BoundTo(if op.ResetFully? then s.defaults else s.bound, k)
  {
  }

  /** Over any run, a key for which no recording was started keeps its binding until a full reset. */
  lemma {:induction false} OtherKeysKept(s: Session, ops: seq<Op>, capacity: nat, k: Keys)
    requires !TakesKey(s, k) && StartMacro(k) !in ops
    ensures var t := RunAll(s, ops, capacity);
            !TakesKey(t, k) && t.defaults == s.defaults && BoundTo(t.bound, k) == Unrecorded(s, ops, k)
  {
    hide Step, BoundTo;
    if ops != [] {
      var front, last := ops[..|ops| - 1], ops[|ops| - 1];
      assert last in ops;
      OtherKeysKept(s, front, capacity, k);
      StepKeepsKey(RunAll(s, front, capacity), last, capacity, k);
    }
  }

  function Appends(events: seq<Byte>): (ops: seq<Op>)
    ensures |ops| == |events| && forall i :: 0 <= i < |ops| ==> ops[i] == Append(events[i])
  {
    seq(|events|, i requires 0 <= i < |events| => Append(events[i]))
  }

  lemma {:induction false} AppendsCollect(s: Session, k: Keys, events: seq<Byte>, capacity: nat)
    requires s.take == Some(Take(k, []))
    ensures RunAll(s, Appends(events), capacity) == s.(take := Some(Take(k, events)))
  {
    var n := |events|;
    if n > 0 {
      var front := events[..n - 1];
      AppendsCollect(s, k, front, capacity);
      assert Appends(events)[..n - 1] == Appends(front);
      assert front + [events[n - 1]] == events;
    } else {
      assert Appends(events) == [];
    }
  }

  /**
   * A whole recording. It binds the key to exactly what was recorded; with no events, or when
   * aborted, it unbinds the key; on a full index it does nothing.
   */
  lemma RecordingBinds(s: Session, k: Keys, events: seq<Byte>, capacity: nat, commit: bool)
    requires s.take.None?
    ensures RunAll(s, [StartMacro(k)] + Appends(events) + [if commit then CommitMacro else AbortMacro], capacity)
         == if k !in s.bound && |s.bound| >= capacity then s
            else s.(bound := if commit && events != [] then s.bound[k := Events(events)] else s.bound - {k})
  {
    hide Step, RunAll;
    var first, last := StartMacro(k), if commit then CommitMacro else AbortMacro;
    RunSplit(s, [first] + Appends(events), [last], capacity);
    RunSplit(s, [first], Appends(events), capacity);
    RunOne(s, first, capacity);
    var begun := Step(s, first, capacity);
    Begins(s, k, capacity);
    if k !in s.bound && |s.bound| >= capacity {
      EndsNothing(s, capacity);
      AppendsIgnored(s, events, capacity);
      RunOne(s, last, capacity);
    } else {
      AppendsCollect(begun, k, events, capacity);
      Ends(s, k, events, capacity);
      RunOne(begun.(take := Some(Take(k, events))), last, capacity);
    }
  }

  lemma Begins(s: Session, k: Keys, capacity: nat)
    requires s.take.None?
    ensures Step(s, StartMacro(k), capacity) == if k !in s.bound && |s.bound| >= capacity then s
                                                else s.(bound := s.bound - {k}, take := Some(Take(k, [])))
  {
  }

  lemma EndsNothing(s: Session, capacity: nat)
    requires s.take.None?
    ensures Step(s, CommitMacro, capacity) == s && Step(s, AbortMacro, capacity) == s
  {
  }

  lemma Ends(s: Session, k: Keys, events: seq<Byte>, capacity: nat)
    requires s.take.None?
    ensures var taken := s.(bound := s.bound - {k}, take := Some(Take(k, events)));
            && Step(taken, AbortMacro, capacity) == s.(bound := s.bound - {k})
            && Step(taken, CommitMacro, capacity)
               == s.(bound := if events != [] then s.bound[k := Events(events)] else s.bound - {k})
  {
    assert (s.bound - {k})[k := Events(events)] == s.bound[k := Events(events)];
  }

  lemma RunOne(s: Session, op: Op, capacity: nat)
    ensures RunAll(s, [op], capacity) == Step(s, op, capacity)
  {
    assert [op][..0] == [];
  }

  lemma {:induction false} AppendsIgnored(s: Session, events: seq<Byte>, capacity: nat)
    requires s.take.None?
    ensures RunAll(s, Appends(events), capacity) == s
  {
    var n := |events|;
    if n > 0 {
      AppendsIgnored(s, events[..n - 1], capacity);
      assert Appends(events)[..n - 1] == Appends(events[..n - 1]);
    } else {
      assert Appends(events) == [];
    }
  }

  lemma {:induction false} RunSplit(s: Session, a: seq<Op>, b: seq<Op>, capacity: nat)
    ensures RunAll(s, a + b, capacity) == RunAll(RunAll(s, a, capacity), b, capacity)
    decreases |b|
  {
    hide Step;
    if b == [] {
      assert a + b == a;
    } else {
      var n := |b| - 1;
      RunSplit(s, a, b[..n], capacity);
      assert (a + b)[..|a + b| - 1] == a + b[..n];
    }
  }
}
