/**
 * The main loop's states (Keyboard.c) as far as macro recording goes. The macro store is used
 * through its user's view, which the byte-level store refines, so that the loop can be shown to
 * call it only in the order it allows.
 */
module RecordingStates {
  import opened Bytes
  import opened MacroIndex
  import opened MacroHeap
  import opened MacroSession
  import MacroStore

  const FIRST_SPECIAL: Byte := 0xE8     // keys from here on are not recorded

  datatype State =
    | Normal | Waiting | Printing | ProgrammingSrc | ProgrammingDst
    | RecordTrigger | Record | MergingPlay | Play

  /** A change of a key that listeners hear of: is the program key held, what is the key mapped to, was it stored. */
  datatype Change = Change(programHeld: bool, code: Byte, stored: bool)

  /** What the normal state does with the keys that are down. */
  datatype Command =
    | NoCommand | WaitThen(next: State, keys: Byte) | Message | PlayMacro(merging: bool, keys: Byte) | FullReset

  /** What a pass through the main loop sees. */
  datatype Pass = Pass(
    changes: seq<Change>,       // key changes of this pass's scan, if there is one
    keysDown: Byte,             // key_press_count after the scan
    recordChord: bool,          // the program and record keys are both down
    command: Command,           // in the normal state
    remapChord: bool,           // the program and remap keys are both down
    fixedKey: bool,             // the key that is down cannot be remapped
    trigger: Keys,              // the formatted keys, in the trigger state
    printed: bool,              // the message has been typed out
    moreToPlay: bool)           // macro playback goes on after this report

  /** Commands that leave the normal state do so for one of these. */
  predicate CommandFits(c: Command) {
    c.WaitThen? ==> c.next.Normal? || c.next.RecordTrigger? || c.next.ProgrammingSrc?
  }

  /**
   * A macro is started, and the store is reset, only when no macro is pending, and a macro is
   * appended to, committed or aborted only when one is.
   */
  predicate Strict(s: Session, op: Op) {
    match op
    case StartMacro(key) => s.take.None? && key[0] != NO_KEY
    case ResetFully => s.take.None?
    case _ => s.take.Some?
  }

  /** Every operation of a run comes in this order. */
  ghost predicate InOrder(s: Session, ops: seq<Op>, capacity: nat) {
    forall i :: 0 <= i < |ops| ==> Strict(RunAll(s, ops[..i], capacity), ops[i])
  }

  lemma InOrderMore(s: Session, ops: seq<Op>, capacity: nat, op: Op)
    requires InOrder(s, ops, capacity) && Strict(RunAll(s, ops, capacity), op)
    ensures InOrder(s, ops + [op], capacity)
    ensures RunAll(s, ops + [op], capacity) == Step(RunAll(s, ops, capacity), op, capacity)
  {
    var now := ops + [op];
    assert now[..|ops|] == ops;
    forall i | 0 <= i < |now|
      ensures Strict(RunAll(s, now[..i], capacity), now[i])
    {
      if i < |ops| { assert now[..i] == ops[..i]; }
    }
  }

  /** Starting fails exactly when the trigger is new and the index is full. */
  lemma StartTakes(s: Session, key: Keys, capacity: nat)
    requires s.take.None?
    ensures Step(s, StartMacro(key), capacity).take.None? <==> key !in s.bound && |s.bound| >= capacity
  {
  }

  class Main {
    const capacity: nat               // entries of the macro index
    var current: State
    var next: State
    var waitCount: Byte
    var lastCount: Byte
    var recording: bool
    var hooked: bool                  // the recorder listens to key changes
    var session: Session              // the macro store
    ghost const before: Session       // the store at power-up
    ghost var ops: seq<Op>            // every operation issued since

    /** A macro is pending in, and on the way to, the recording state, and nowhere else. */
    ghost predicate Valid()
      reads this
    {
      && (session.take.Some? <==> current.Record? || (current.Waiting? && next.Record?))
      && hooked == recording && (recording ==> current.Record?)
      && (current.Printing? ==> next.Normal?)
      && InOrder(before, ops, capacity) && session == RunAll(before, ops, capacity)
    }

    constructor (capacity: nat, bound: map<Keys, Content>, defaults: map<Keys, Content>)
      ensures Valid() && session == Session(bound, None, defaults) && ops == [] && current.Normal?
      ensures this.capacity == capacity
    {
      this.capacity := capacity;
      current, next, waitCount, lastCount, recording, hooked := Normal, Normal, 0, 0, false, false;
      session, before, ops := Session(bound, None, defaults), Session(bound, None, defaults), [];
    }

    /** One call into the macro store. */
    method Issue(op: Op)
      requires Strict(session, op) && InOrder(before, ops, capacity) && session == RunAll(before, ops, capacity)
      modifies `session, `ops
      ensures session == Step(old(session), op, capacity) && ops == old(ops) + [op]
      ensures InOrder(before, ops, capacity) && session == RunAll(before, ops, capacity)
    {
      InOrderMore(before, ops, capacity, op);
      session := Step(session, op, capacity);
      ops := ops + [op];
    }

    method Wait(upcoming: State)
      modifies `current, `next
      ensures current.Waiting? && next == upcoming
    {
      current, next := Waiting, upcoming;
    }

    // ---- recording ----

    /** Tries the keys as a trigger once they are being let go. */
    method HandleRecordTrigger(p: Pass)
      requires Valid() && current.RecordTrigger?
      modifies this
      ensures Valid() && !recording
      ensures session ==
              if !p.recordChord && p.keysDown < old(lastCount)
                 && p.keysDown as int <= MAX_KEYS && p.trigger[0] != NO_KEY
              then Step(old(session), StartMacro(p.trigger), capacity) else old(session)
    {
      hide InOrder, RunAll, Step;
      if p.recordChord {
        Wait(Normal);
      } else if p.keysDown as int > MAX_KEYS {
        lastCount := 0;
        Wait(Normal);
      } else if p.keysDown >= lastCount {
        lastCount := p.keysDown;
      } else {
        lastCount := 0;
        if p.trigger[0] != NO_KEY {
          var full := p.trigger !in session.bound && |session.bound| >= capacity;
          StartTakes(session, p.trigger, capacity);
          Issue(StartMacro(p.trigger));
          Wait(if full then Normal else Record);
        }
      }
    }

    /** The recorder hears of a key change. */
    method RecordHook(c: Change)
      requires Valid() && hooked
      modifies this
      ensures Valid()
      ensures session == if c.programHeld || c.code >= FIRST_SPECIAL then old(session)
                         else Step(old(session), if c.stored then Append(c.code) else AbortMacro, capacity)
      ensures hooked <==> c.programHeld || c.code >= FIRST_SPECIAL || c.stored
    {
      hide InOrder, RunAll;
      if c.programHeld || c.code >= FIRST_SPECIAL {
        return;
      }
      if c.stored {
        Issue(Append(c.code));
      } else {
        recording, hooked := false, false;
        Issue(AbortMacro);
        Wait(Normal);
      }
    }

    method HandleRecord(recordChord: bool)
      requires Valid() && current.Record?
      modifies this
      ensures Valid() && recording == !recordChord
      ensures session == if recordChord then Step(old(session), CommitMacro, capacity) else old(session)
    {
      hide InOrder, RunAll;
      if !recording {
        recording, hooked := true, true;
      }
      if recordChord {
        recording, hooked := false, false;
        Issue(CommitMacro);
        Wait(Normal);
      }
    }

    // ---- the loop ----

    /** Key changes reach the recorder for as long as it listens. */
    method NotifyChanges(changes: seq<Change>)
      requires Valid()
      modifies this
      ensures Valid()
      ensures !old(hooked) ==> session == old(session) && ops == old(ops)
    {
      var i := 0;
      while i < |changes|
        invariant 0 <= i <= |changes| && Valid()
        invariant !old(hooked) ==> !hooked && session == old(session) && ops == old(ops)
      {
        if hooked {
          RecordHook(changes[i]);
        }
        i := i + 1;
      }
    }

    method HandleNormal(c: Command)
      requires Valid() && current.Normal? && CommandFits(c)
      modifies `current, `next, `waitCount, `session, `ops
      ensures Valid() && session == if c.FullReset? then Step(old(session), ResetFully, capacity) else old(session)
    {
      hide InOrder, RunAll;
      match c
      case NoCommand =>
      case WaitThen(upcoming, keys) =>
        waitCount := keys;
        Wait(upcoming);
      case Message => current, next := Printing, Normal;
      case PlayMacro(merging, keys) =>
        waitCount := keys;
        current := if merging then MergingPlay else Play;
      case FullReset =>
        Issue(ResetFully);
        Wait(Normal);
    }

    method HandleWaiting(keysDown: Byte)
      requires Valid() && current.Waiting?
      modifies `current, `next, `waitCount
      ensures Valid()
      ensures keysDown == 0 ==> current == old(next)
    {
      if keysDown == 0 || (keysDown != waitCount && waitCount != 0) {
        waitCount := 0;
        current, next := next, Normal;
      }
    }

    /** Remapping takes a source key and a destination key in turn. */
    method HandleProgramming(p: Pass)
      requires Valid() && (current.ProgrammingSrc? || current.ProgrammingDst?)
      modifies `current, `next
      ensures Valid()
    {
      if p.keysDown == 0 || p.keysDown > 2 {
        return;
      }
      if p.keysDown == 2 {
        if p.remapChord {
          Wait(Normal);
        }
        return;
      }
      if !p.fixedKey {
        Wait(if current.ProgrammingSrc? then ProgrammingDst else ProgrammingSrc);
      }
    }

    method HandleState(p: Pass)
      requires Valid() && CommandFits(p.command)
      modifies this
      ensures Valid()
    {
      match current
      case Normal => HandleNormal(p.command);
      case Waiting => HandleWaiting(p.keysDown);
      case Printing =>
        if p.printed {
          current := Waiting;
        }
      case ProgrammingSrc => HandleProgramming(p);
      case ProgrammingDst => HandleProgramming(p);
      case RecordTrigger => HandleRecordTrigger(p);
      case Record => HandleRecord(p.recordChord);
      case MergingPlay =>
      case Play =>
    }

    method FillKeyboardReport(moreToPlay: bool)
      requires Valid()
      modifies `current, `next
      ensures Valid()
    {
      if (current.MergingPlay? || current.Play?) && !moreToPlay {
        Wait(Normal);
      }
    }

    /** One pass through the main loop. */
    method Loop(p: Pass)
      requires Valid() && CommandFits(p.command)
      modifies this
      ensures Valid()
    {
      NotifyChanges(p.changes);
      HandleState(p);
      FillKeyboardReport(p.moreToPlay);
    }

    /** The keyboard for any length of time: the store is never used out of order. */
    method Run(passes: seq<Pass>)
      requires Valid() && forall i :: 0 <= i < |passes| ==> CommandFits(passes[i].command)
      modifies this
      ensures Valid()
    {
      for i := 0 to |passes|
        invariant Valid()
      {
        Loop(passes[i]);
      }
    }
  }

  /**
   * What the main loop issued, replayed on the bytes: the store does all of it, and ends as the
   * loop believes, unless the region has no room left for an event.
   */
  method Replay(main: Main, store: MacroStore.Store, ops: seq<Op>) returns (n: nat)
    requires main.Valid() && store.Valid() && ops == main.ops
    requires main.before == store.View() && main.capacity == store.index.entries.Length
    modifies store, store.chip, store.index`count, store.index.entries
    ensures n <= |ops| && store.Valid() && store.View() == RunAll(main.before, ops[..n], main.capacity)
    ensures n < |ops| ==> ops[n].Append? && !store.HasRoom()
    ensures n == |ops| ==> store.View() == main.session
  {
    n := store.Run(ops);
    assert n == |ops| ==> ops[..n] == ops;
  }
}
