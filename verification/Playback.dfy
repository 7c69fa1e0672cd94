/**
 * Macro playback (macro.c): each report toggles the next recorded event, so the keys down
 * after i reports are those that occur an odd number of times among the first i events.
 */
module Playback {
  import opened Bytes
  import opened Counting
  import opened ExtraReport
  import opened MacroIndex
  import MacroHeap
  import MacroStore

  function Toggle(s: set<Byte>, k: Byte): set<Byte> {
    if k in s then s - {k} else s + {k}
  }

  /** The keys down after a run of press-or-release events. */
  function Down(events: seq<Byte>): set<Byte> {
    if events == [] then {} else Toggle(Down(events[..|events| - 1]), events[|events| - 1])
  }

  /** A key is down exactly when it occurs an odd number of times. */
  lemma {:induction false} DownIsOdd(events: seq<Byte>, k: Byte)
    ensures k in Down(events) <==> multiset(events)[k] % 2 == 1
  {
    if events != [] {
      var n := |events| - 1;
      DownIsOdd(events[..n], k);
      assert events == events[..n] + [events[n]];
    }
  }

  function Ordinary(s: set<Byte>): (r: set<Byte>)
    ensures r <= s && forall k :: k in r <==> k in s && k < LEFT_CONTROL
  {
    set k | k in s && k < LEFT_CONTROL
  }

  // ---- what the side report holds ----

  /** The side report after a run of events. */
  function SideAfter(events: seq<Byte>): (r: Side)
    ensures DistinctKeys(r.keys) && |r.keys| == SLOTS
  {
    if events == [] then NO_KEYS
    else
      var front := SideAfter(events[..|events| - 1]);
      StaysDistinct(front, events[|events| - 1]);
      Toggled(front, events[|events| - 1])
  }

  /** A side report that holds exactly the given keys. */
  ghost predicate Exact(s: Side, down: set<Byte>) {
    forall k: Byte :: HoldsIn(s, k) <==> k in down
  }

  /** The side report is exact after each of the first n events. */
  ghost predicate ExactUpTo(events: seq<Byte>, n: nat)
    requires n <= |events|
  {
    forall i :: 0 <= i <= n ==> Exact(SideAfter(events[..i]), Down(events[..i]))
  }

  /** Never more than six ordinary keys are down. */
  ghost predicate AtMostSix(events: seq<Byte>, n: nat)
    requires n <= |events|
  {
    forall i :: 0 <= i <= n ==> |Ordinary(Down(events[..i]))| <= SLOTS
  }

  predicate RealKeys(events: seq<Byte>, n: nat)
    requires n <= |events|
  {
    forall i :: 0 <= i < n ==> events[i] < LEFT_CONTROL + 8
  }

  /** Real key codes, and never more than six ordinary keys down at once. */
  ghost predicate Playable(events: seq<Byte>) { RealKeys(events, |events|) && AtMostSix(events, |events|) }

  /** The slots hold exactly the ordinary keys down. */
  ghost predicate SlotsExact(s: Side, down: set<Byte>) {
    forall k: Byte :: k < LEFT_CONTROL ==> (k in down <==> k in s.keys)
  }

  lemma ExactSlots(s: Side, down: set<Byte>)
    requires Exact(s, down)
    ensures SlotsExact(s, down)
  {
    forall k: Byte | k < LEFT_CONTROL
      ensures k in down <==> k in s.keys
    {
      assert HoldsIn(s, k) <==> k in down;
    }
  }

  /** Six slots hold at most six ordinary keys, and exactly six when none is free. */
  lemma OrdinaryKeys(s: Side, down: set<Byte>)
    requires DistinctKeys(s.keys) && |s.keys| == SLOTS && SlotsExact(s, down)
    ensures |Ordinary(down)| <= SLOTS && (NO_KEY !in s.keys ==> |Ordinary(down)| == SLOTS)
  {
    assert forall k: Byte :: k in Ordinary(down) <==> k in s.keys && k < LEFT_CONTROL;
    ElementsAtMost(s.keys);
    SubsetAtMost(Ordinary(down), Elements(s.keys));
    if NO_KEY !in s.keys {
      DistinctCount(s.keys);
      assert Ordinary(down) == Elements(s.keys);
    }
  }

  /** One more event keeps the report exact precisely when the key is real and finds a place. */
  lemma NextExact(s: Side, down: set<Byte>, key: Byte)
    requires DistinctKeys(s.keys) && Exact(s, down)
    ensures Exact(Toggled(s, key), Toggle(down, key)) <==> key in down || CanHold(s, key)
  {
    hide HoldsIn, DistinctKeys, CanHold, Toggled;
    OneKeyChanges(s, key);
    assert HoldsIn(s, key) <==> key in down;
    if key in down || CanHold(s, key) {
      forall k: Byte
        ensures HoldsIn(Toggled(s, key), k) <==> k in Toggle(down, key)
      {
        assert HoldsIn(s, k) <==> k in down;
      }
    } else {
      assert !(HoldsIn(Toggled(s, key), key) <==> key in Toggle(down, key));
    }
  }

  lemma PlaceFound(s: Side, down: set<Byte>, key: Byte)
    requires DistinctKeys(s.keys) && |s.keys| == SLOTS && Exact(s, down)
    ensures key in down || CanHold(s, key) <==>
            key < LEFT_CONTROL + 8 && |Ordinary(Toggle(down, key))| <= SLOTS
  {
    hide Exact, DistinctKeys;
    ExactSlots(s, down);
    OrdinaryKeys(s, down);
    NextExact(s, down, key);
    assert key in down <==> HoldsIn(s, key) by { HeldIsDown(s, down, key); }
    if key in down || CanHold(s, key) {
      StaysDistinct(s, key);
      ExactSlots(Toggled(s, key), Toggle(down, key));
      OrdinaryKeys(Toggled(s, key), Toggle(down, key));
      assert (key in s.keys && key < LEFT_CONTROL) || IsModifier(key) || CanHold(s, key);
    } else if key < LEFT_CONTROL {
      assert NO_KEY !in s.keys;
      assert Ordinary(Toggle(down, key)) == Ordinary(down) + {key};
    }
  }

  lemma HeldIsDown(s: Side, down: set<Byte>, key: Byte)
    requires Exact(s, down)
    ensures key in down <==> HoldsIn(s, key)
  {
  }

  lemma ExactMore(events: seq<Byte>, i: nat)
    requires i < |events|
    ensures ExactUpTo(events, i + 1) <==>
            ExactUpTo(events, i) && Exact(SideAfter(events[..i + 1]), Down(events[..i + 1]))
    ensures AtMostSix(events, i + 1) <==> AtMostSix(events, i) && |Ordinary(Down(events[..i + 1]))| <= SLOTS
    ensures RealKeys(events, i + 1) <==> RealKeys(events, i) && events[i] < LEFT_CONTROL + 8
    ensures ExactUpTo(events, i) ==> Exact(SideAfter(events[..i]), Down(events[..i]))
  {
    hide Exact, Ordinary;
  }

  /**
   * Playback holds exactly the keys down all along if and only if all events are real key codes
   * and at no time more than six ordinary keys are down.
   */
  lemma {:induction false} ExactIff(events: seq<Byte>, n: nat)
    requires n <= |events|
    ensures ExactUpTo(events, n) <==> RealKeys(events, n) && AtMostSix(events, n)
  {
    hide *;
    if n == 0 {
      NoneDown(events);
    } else {
      var i: nat := n - 1;
      ExactIff(events, i);
      ExactMore(events, i);
      NextSide(events, i);
      if ExactUpTo(events, i) {
        NextExact(SideAfter(events[..i]), Down(events[..i]), events[i]);
        PlaceFound(SideAfter(events[..i]), Down(events[..i]), events[i]);
      }
    }
  }

  lemma NoneDown(events: seq<Byte>)
    ensures ExactUpTo(events, 0) && RealKeys(events, 0) && AtMostSix(events, 0)
  {
    hide Exact;
    assert events[..0] == [];
    NothingExact();
  }

  lemma NothingExact()
    ensures Exact(NO_KEYS, {})
  {
    NothingHeld();
  }

  class Player {
    const store: MacroStore.Store
    const report: ExtraKeyboardReport
    var remaining: Word
    var cursor: nat

    constructor (store: MacroStore.Store)
      ensures this.store == store && fresh(report) && fresh(report.keys) && report.Valid() && remaining == 0
    {
      this.store := store;
      report := new ExtraKeyboardReport();
      remaining, cursor := 0, 0;
    }

    /** i of the events have been played and the rest lies at the cursor. */
    ghost predicate Playing(events: seq<Byte>, i: nat)
      reads this, store.chip, report, report.keys
    {
      && store.Region() && i <= |events| && remaining == |events| - i
      && cursor + remaining <= store.size - 2
      && store.Heap()[cursor..cursor + remaining] == events[i..]
      && report.Valid() && report.View() == SideAfter(events[..i])
    }

    method StartPlayback(at: nat)
      requires store.Region() && store.chip.Ready() && at + MacroHeap.HEADER <= store.size - 2
      requires at + MacroHeap.HEADER + ReadWord(store.Heap(), at) <= store.size - 2 && report.Valid()
      modifies this, report`modifiers, report.keys
      ensures Playing(MacroHeap.ReadMacro(store.Heap(), at), 0)
    {
      report.Clear();
      cursor := at + MacroHeap.HEADER;
      remaining := store.ReadLength(at);
    }

    /** Toggles the next event, if any, and merges the keys down into the report; true while events remain. */
    method FillNextReport(out: KeyboardReport, ghost events: seq<Byte>, ghost i: nat) returns (more: bool)
      requires Playing(events, i) && store.chip.Ready()
      requires out.codes.Length == SLOTS && out.codes != report.keys
      modifies this, report`modifiers, report.keys, out`modifier, out.codes
      ensures more <==> i + 1 < |events|
      ensures i < |events| ==> Playing(events, i + 1) && out.modifier == old(out.modifier) | report.modifiers
                               && out.codes[..] == Appended(old(out.codes[..]), report.keys[..])
      ensures i == |events| ==>
                Playing(events, i) && out.codes[..] == old(out.codes[..]) && out.modifier == old(out.modifier)
    {
      hide Appended, DistinctKeys, Toggled, SameBut, HoldsIn, CanHold, MacroStore.HeapOf;
      if remaining != 0 {
        remaining := remaining - 1;
        MacroStore.HeapSlice(store.chip.mem, store.base, store.size, cursor, cursor + 1);
        var data := store.chip.Read(store.base + 2 + cursor, 1);
        var event := data[0];
        EventAtCursor(store.Heap(), cursor, remaining, events, i);
        cursor := cursor + 1;
        NextSide(events, i);
        report.Toggle(event);
        out.Append(report);
      }
      more := remaining != 0;
    }
  }

  lemma EventAtCursor(heap: seq<Byte>, cursor: nat, left: nat, events: seq<Byte>, i: nat)
    requires i < |events| && left + 1 == |events| - i && cursor + left + 1 <= |heap|
    requires heap[cursor..cursor + left + 1] == events[i..]
    ensures heap[cursor..cursor + 1][0] == events[i] && heap[cursor + 1..cursor + 1 + left] == events[i + 1..]
  {
    assert heap[cursor] == heap[cursor..cursor + left + 1][0] == events[i];
    assert events[i..][1..] == events[i + 1..];
    assert heap[cursor..cursor + left + 1][1..] == heap[cursor + 1..cursor + 1 + left];
  }

  lemma NextSide(events: seq<Byte>, i: nat)
    requires i < |events|
    ensures SideAfter(events[..i + 1]) == Toggled(SideAfter(events[..i]), events[i])
    ensures Down(events[..i + 1]) == Toggle(Down(events[..i]), events[i])
  {
    assert events[..i + 1][..i] == events[..i];
  }

  /** A USB report that holds exactly the given keys down. */
  ghost predicate Reports(r: Sent, down: set<Byte>) {
    forall k: Byte :: 1 <= k < LEFT_CONTROL + 8 ==>
      (k in down <==> if k >= LEFT_CONTROL then Bit(r.modifier, k - LEFT_CONTROL) else k in r.codes)
  }

  datatype Sent = Sent(modifier: bv8, codes: seq<Byte>)

  const EMPTY_CODES: seq<Byte> := [0, 0, 0, 0, 0, 0]

  /** The report that shows a side report and nothing else. */
  function Shown(s: Side): Sent { Sent(s.modifiers, Appended(EMPTY_CODES, s.keys)) }

  /** Whatever is played, in order: report i shows what the first i + 1 events leave toggled. */
  ghost predicate Plays(sent: seq<Sent>, events: seq<Byte>) {
    && |sent| == (if events == [] then 1 else |events|)
    && forall i :: 0 <= i < |events| ==> sent[i] == Shown(SideAfter(events[..i + 1]))
  }

  /** Keys a USB report can show: key code 0 says that there is none. */
  predicate Shows(k: Byte) { 1 <= k < LEFT_CONTROL + 8 }

  /** Merged into an empty report, the side report appears completely. */
  lemma ShownHolds(s: Side, k: Byte)
    requires |s.keys| == SLOTS && DistinctKeys(s.keys) && Shows(k)
    ensures HoldsIn(s, k) <==>
            if k >= LEFT_CONTROL then Bit(Shown(s).modifier, k - LEFT_CONTROL) else k in Shown(s).codes
  {
    hide Bit;
    var keys, r := s.keys, Shown(s).codes;
    assert UsedCodes(EMPTY_CODES) == 0 && EMPTY_CODES[..0] == [];
    NewKeysAre(keys, [], |keys|);
    assert keys[..|keys|] == keys;
    var w := NewKeys(keys, [], |keys|);
    assert Written(EMPTY_CODES, keys) == w;
    if k in w {
      var j :| 0 <= j < |w| && w[j] == k;
      assert r[j] == k;
    }
  }

  /** A side report that holds exactly the given keys, as far as reports can show them. */
  ghost predicate ExactShown(s: Side, down: set<Byte>) {
    forall k: Byte :: Shows(k) ==> (HoldsIn(s, k) <==> k in down)
  }

  lemma ReportsIff(s: Side, down: set<Byte>)
    requires |s.keys| == SLOTS && DistinctKeys(s.keys)
    ensures Reports(Shown(s), down) <==> ExactShown(s, down)
  {
    hide HoldsIn, DistinctKeys, Bit, Shown;
    forall k: Byte | Shows(k)
      ensures HoldsIn(s, k) <==>
              if k >= LEFT_CONTROL then Bit(Shown(s).modifier, k - LEFT_CONTROL) else k in Shown(s).codes
    {
      ShownHolds(s, k);
    }
  }

  /** Event i is a key that reports do not show, or a release, or finds a place in the side report. */
  ghost predicate FindsPlace(events: seq<Byte>, i: nat)
    requires i < |events|
  {
    !Shows(events[i]) || events[i] in Down(events[..i]) || CanHold(SideAfter(events[..i]), events[i])
  }

  lemma NextShown(s: Side, down: set<Byte>, key: Byte)
    requires DistinctKeys(s.keys) && ExactShown(s, down)
    ensures ExactShown(Toggled(s, key), Toggle(down, key)) <==> !Shows(key) || key in down || CanHold(s, key)
  {
    hide HoldsIn, DistinctKeys, CanHold, Toggled;
    OneKeyChanges(s, key);
    if !Shows(key) || key in down || CanHold(s, key) {
      forall k: Byte | Shows(k)
        ensures HoldsIn(Toggled(s, key), k) <==> k in Toggle(down, key)
      {
        assert HoldsIn(s, k) <==> k in down;
      }
    } else {
      assert HoldsIn(s, key) <==> key in down;
      assert !(HoldsIn(Toggled(s, key), key) <==> key in Toggle(down, key));
    }
  }

  ghost predicate ShownUpTo(events: seq<Byte>, n: nat)
    requires n <= |events|
  {
    forall i :: 0 <= i <= n ==> ExactShown(SideAfter(events[..i]), Down(events[..i]))
  }

  ghost predicate PlacedUpTo(events: seq<Byte>, n: nat)
    requires n <= |events|
  {
    forall i :: 0 <= i < n ==> FindsPlace(events, i)
  }

  lemma {:induction false} ShownIffPlaced(events: seq<Byte>, n: nat)
    requires n <= |events|
    ensures ShownUpTo(events, n) <==> PlacedUpTo(events, n)
  {
    hide ExactShown, CanHold, Toggled, Shows;
    if n == 0 {
      assert events[..0] == [];
      NothingShown();
    } else {
      var i: nat := n - 1;
      ShownIffPlaced(events, i);
      NextSide(events, i);
      ShownMore(events, i);
      if ShownUpTo(events, i) { NextShown(SideAfter(events[..i]), Down(events[..i]), events[i]); }
    }
  }

  lemma ShownMore(events: seq<Byte>, i: nat)
    requires i < |events|
    ensures ShownUpTo(events, i + 1) <==>
            ShownUpTo(events, i) && ExactShown(SideAfter(events[..i + 1]), Down(events[..i + 1]))
    ensures PlacedUpTo(events, i + 1) <==> PlacedUpTo(events, i) && FindsPlace(events, i)
    ensures ShownUpTo(events, i) ==> ExactShown(SideAfter(events[..i]), Down(events[..i]))
  {
    hide ExactShown, FindsPlace, Ordinary;
  }

  lemma NothingShown()
    ensures ExactShown(NO_KEYS, {})
  {
    NothingHeld();
  }

  /** Without key code 0, a key finds a place exactly when at most six ordinary keys are then down. */
  lemma PlaceIffSix(s: Side, down: set<Byte>, key: Byte)
    requires DistinctKeys(s.keys) && |s.keys| == SLOTS && ExactShown(s, down) && 0 !in s.keys && 0 !in down && key != 0
    ensures !Shows(key) || key in down || CanHold(s, key) <==> |Ordinary(Toggle(down, key))| <= SLOTS
    ensures 0 !in Toggled(s, key).keys
  {
    hide DistinctKeys;
    StaysDistinct(s, key);
    ShownSlots(s, down);
    OrdinaryKeys(s, down);
    if key >= LEFT_CONTROL {
      assert Ordinary(Toggle(down, key)) == Ordinary(down);
    } else if key in down || CanHold(s, key) {
      NextShown(s, down, key);
      ShownSlots(Toggled(s, key), Toggle(down, key));
      OrdinaryKeys(Toggled(s, key), Toggle(down, key));
    } else {
      assert Ordinary(Toggle(down, key)) == Ordinary(down) + {key};
    }
  }

  lemma ShownSlots(s: Side, down: set<Byte>)
    requires ExactShown(s, down) && 0 !in s.keys && 0 !in down
    ensures SlotsExact(s, down)
  {
    forall k: Byte | k < LEFT_CONTROL
      ensures k in down <==> k in s.keys
    {
      if k != 0 { assert Shows(k) && (HoldsIn(s, k) <==> k in down); }
    }
  }

  lemma {:induction false} PlacedIffSix(events: seq<Byte>, n: nat)
    requires n <= |events| && 0 !in events
    ensures PlacedUpTo(events, n) <==> AtMostSix(events, n)
    ensures 0 !in Down(events[..n]) && 0 !in SideAfter(events[..n]).keys
  {
    hide ExactShown, CanHold, Toggled, Shows;
    if n == 0 {
      assert events[..0] == [];
    } else {
      var i: nat := n - 1;
      assert events[i] in events;
      PlacedIffSix(events, i);
      ShownIffPlaced(events, i);
      NextSide(events, i);
      ShownMore(events, i);
      ExactMore(events, i);
      NoZero(SideAfter(events[..i]), events[i]);
      if PlacedUpTo(events, i) { PlaceIffSix(SideAfter(events[..i]), Down(events[..i]), events[i]); }
    }
  }

  lemma NoZero(s: Side, key: Byte)
    requires 0 !in s.keys && key != 0
    ensures 0 !in Toggled(s, key).keys
  {
  }

  lemma PlayableShown(events: seq<Byte>)
    requires Playable(events)
    ensures ShownUpTo(events, |events|)
  {
    hide HoldsIn;
    ExactIff(events, |events|);
    forall i | 0 <= i <= |events|
      ensures ExactShown(SideAfter(events[..i]), Down(events[..i]))
    {
      assert Exact(SideAfter(events[..i]), Down(events[..i]));
    }
  }

  /** Every report of a macro shows exactly the keys down. */
  ghost predicate PlayedRight(sent: seq<Sent>, events: seq<Byte>)
    requires |events| <= |sent|
  {
    forall i :: 0 <= i < |events| ==> Reports(sent[i], Down(events[..i + 1]))
  }

  /**
   * The reports sent show exactly the keys down all along if and only if each key that goes down
   * finds a place; without key code 0 among the events, if and only if never more than six
   * ordinary keys are down.
   */
  lemma PlayedRightIff(sent: seq<Sent>, events: seq<Byte>)
    requires Plays(sent, events)
    ensures |events| <= |sent| && (PlayedRight(sent, events) <==> PlacedUpTo(events, |events|))
    ensures 0 !in events ==> (PlayedRight(sent, events) <==> AtMostSix(events, |events|))
    ensures Playable(events) ==> PlayedRight(sent, events)
  {
    hide ExactShown, Reports, Shown, FindsPlace;
    var n := |events|;
    ShownIffPlaced(events, n);
    if 0 !in events { PlacedIffSix(events, n); }
    if Playable(events) { PlayableShown(events); }
    forall i | 0 <= i < n
      ensures Reports(sent[i], Down(events[..i + 1])) <==>
              ExactShown(SideAfter(events[..i + 1]), Down(events[..i + 1]))
    {
      ReportsIff(SideAfter(events[..i + 1]), Down(events[..i + 1]));
    }
    NothingShown();
    assert events[..0] == [];
    if PlayedRight(sent, events) {
      forall i | 0 <= i <= n
        ensures ExactShown(SideAfter(events[..i]), Down(events[..i]))
      {
        if i > 0 { assert Reports(sent[i - 1], Down(events[..(i - 1) + 1])); }
      }
    }
  }

  lemma {:induction false} AllDown(events: seq<Byte>)
    requires forall i, j :: 0 <= i < j < |events| ==> events[i] != events[j]
    ensures Down(events) == Elements(events)
  {
    if events != [] {
      var n := |events| - 1;
      AllDown(events[..n]);
      assert events == events[..n] + [events[n]];
    }
  }

  /** A macro that presses seven or more different letters one after another is not shown as it was recorded. */
  lemma SeventhKeyLost(sent: seq<Sent>, events: seq<Byte>)
    requires Plays(sent, events) && |events| > SLOTS
    requires forall i, j :: 0 <= i < j < |events| ==> events[i] != events[j]
    requires forall i :: 0 <= i < |events| ==> 0 < events[i] < LEFT_CONTROL
    ensures |events| <= |sent| && !PlayedRight(sent, events)
  {
    hide Plays, PlayedRight, SideAfter, Toggled, PlacedUpTo, Down;
    PlayedRightIff(sent, events);
    AllDown(events);
    DistinctCount(events);
    assert Ordinary(Down(events)) == Elements(events);
    assert events[..|events|] == events;
  }

  lemma NothingElse(m: bv8)
    ensures 0 | m == m
  {
  }

  /**
   * Plays the macro at an offset into empty reports until playback says it is done: one report
   * for each event, showing what the events so far leave toggled.
   */
  method PlayMacro(player: Player, at: nat) returns (sent: seq<Sent>)
    requires player.store.Region() && player.store.chip.Ready() && player.report.Valid()
    requires at + MacroHeap.HEADER <= player.store.size - 2
    requires at + MacroHeap.HEADER + ReadWord(player.store.Heap(), at) <= player.store.size - 2
    modifies player, player.report`modifiers, player.report.keys
    ensures Plays(sent, MacroHeap.ReadMacro(player.store.Heap(), at))
  {
    hide Appended, DistinctKeys, SideAfter, MacroHeap.ReadMacro, MacroStore.HeapOf;
    ghost var events := MacroHeap.ReadMacro(player.store.Heap(), at);
    player.StartPlayback(at);
    sent := [];
    var more := true;
    while more
      invariant player.Playing(events, |sent|) || (events == [] && !more && |sent| == 1)
      invariant more ==> |sent| < |events| || (sent == [] && events == [])
      invariant !more ==> |sent| == if events == [] then 1 else |events|
      invariant forall i :: 0 <= i < |sent| && i < |events| ==> sent[i] == Shown(SideAfter(events[..i + 1]))
      decreases more, |events| - |sent|
    {
      var out := new KeyboardReport();
      assert out.codes[..] == EMPTY_CODES;
      more := player.FillNextReport(out, events, |sent|);
      NothingElse(player.report.modifiers);
      sent := sent + [Sent(out.modifier, out.codes[..])];
    }
  }

  /** Looking a key combination up and playing it plays the events it is bound to. */
  method PlayBinding(player: Player, key: Keys) returns (sent: seq<Sent>)
    requires player.store.Valid() && player.store.chip.Ready() && player.report.Valid()
    requires key[0] != NO_KEY && key in player.store.Bound() && player.store.Bound()[key].Events?
    modifies player, player.report`modifiers, player.report.keys
    ensures var events := player.store.Bound()[key].events;
            && Plays(sent, events) && |events| <= |sent|
            && (PlayedRight(sent, events) <==> PlacedUpTo(events, |events|))
            && (0 !in events ==> (PlayedRight(sent, events) <==> AtMostSix(events, |events|)))
            && (Playable(events) ==> PlayedRight(sent, events))
  {
    hide Plays, PlayedRight, PlacedUpTo, AtMostSix, Playable, Down, MacroHeap.ReadMacro, MacroStore.HeapOf, WellFormed,
         AsMap, MacroHeap.Agree;
    var store := player.store;
    ghost var events := store.Bound()[key].events;
    store.BoundMacro(key);
    var found := store.index.Lookup(key);
    store.MappedAt(found.value);
    var data := store.index.GetData(found.value);
    sent := PlayMacro(player, data.offset);
    PlayedRightIff(sent, events);
  }
}
