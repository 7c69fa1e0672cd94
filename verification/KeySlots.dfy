/** The table of tracked keys as a value, and how a scan changes it (keystate.c). */
module KeySlots {
  import opened Bytes
  import opened Debouncing
  import opened Counting
  import opened KeyEvents

  datatype Slot = Slot(key: Byte, prev: bool, state: bool, hidden: bool)

  const EMPTY: Slot := Slot(NO_KEY, false, false, false)

  predicate Tracks(slots: seq<Slot>, p: Byte) {
    p != NO_KEY && exists k :: 0 <= k < |slots| && slots[k].key == p
  }

  ghost predicate DistinctSlots(slots: seq<Slot>) {
    forall i, j :: 0 <= i < j < |slots| && slots[i].key == slots[j].key ==> slots[i].key == NO_KEY
  }

  /** Between scans a slot is empty or holds a key that was and is down. */
  ghost predicate Settled(slots: seq<Slot>) {
    && |slots| == SLOT_COUNT && DistinctSlots(slots)
    && forall k :: 0 <= k < |slots| ==> slots[k] == EMPTY || (slots[k].key != NO_KEY && slots[k].prev && slots[k].state)
  }

  ghost predicate AllOn(slots: seq<Slot>, history: seq<Scan>, n: nat) {
    forall k :: 0 <= k < |slots| && slots[k].key != NO_KEY ==> On(history, n, slots[k].key)
  }

  ghost predicate AllBelow(slots: seq<Slot>, n: nat) {
    forall k :: 0 <= k < |slots| && slots[k].key != NO_KEY ==> slots[k].key < n
  }

  // ---- during a scan ----

  /** Keys that went up are marked. */
  function Marked(s: Slot, on: bool): Slot { if s.key != NO_KEY && !on then s.(state := false) else s }

  ghost predicate MarkedBelow(before: seq<Slot>, now: seq<Slot>, history: seq<Scan>, n: nat, j: nat) {
    && |now| == |before|
    && forall k :: 0 <= k < |now| ==> now[k] == if k < j then Marked(before[k], On(history, n, before[k].key))
            else before[k]
  }

  /** Keys turned on by this scan, below p, have been put into slots that were free. */
  ghost predicate Recorded(marked: seq<Slot>, now: seq<Slot>, history: seq<Scan>, n: nat, p: nat) {
    && |now| == |marked| && DistinctSlots(now)
    && (forall k :: 0 <= k < |now| && marked[k].key != NO_KEY ==> now[k] == marked[k])
    && (forall k :: 0 <= k < |now| && marked[k].key == NO_KEY ==> now[k] == EMPTY || NewSlot(now[k], history, n, p))
    && (forall q: Byte :: q < p && TurnedOn(history, n, q) ==> Tracks(now, q))
  }

  /** A slot with a key this scan turned on. */
  ghost predicate NewSlot(s: Slot, history: seq<Scan>, n: nat, p: nat) {
    s.key < p && s == Slot(s.key, false, true, false) && s.key != NO_KEY && TurnedOn(history, n, s.key)
  }

  /** The marked slots, and those that were empty stay empty. */
  ghost predicate Marking(marked: seq<Slot>, history: seq<Scan>, n: nat) {
    && |marked| == SLOT_COUNT && DistinctSlots(marked) && history != []
    && forall k :: 0 <= k < |marked| ==>
         marked[k] == EMPTY
         || (marked[k].key != NO_KEY && marked[k].prev && On(history[..|history| - 1], n, marked[k].key)
             && (marked[k].state <==> On(history, n, marked[k].key)))
  }

  lemma MarkingDone(before: seq<Slot>, now: seq<Slot>, history: seq<Scan>, n: nat)
    requires history != [] && Settled(before) && AllOn(before, history[..|history| - 1], n)
    requires MarkedBelow(before, now, history, n, SLOT_COUNT)
    ensures Marking(now, history, n)
  {
    hide On;
  }

  lemma NothingRecorded(marked: seq<Slot>, history: seq<Scan>, n: nat)
    requires Marking(marked, history, n)
    ensures Recorded(marked, marked, history, n, 0)
  {
    hide On, TurnedOn;
  }

  /** Key p has not been turned on by this scan. */
  lemma NotTurnedOn(marked: seq<Slot>, now: seq<Slot>, history: seq<Scan>, n: nat, p: Byte)
    requires Recorded(marked, now, history, n, p) && !TurnedOn(history, n, p)
    ensures Recorded(marked, now, history, n, p + 1)
  {
    hide TurnedOn;
  }

  /** A key turned on goes into a free slot. */
  lemma KeyRecorded(marked: seq<Slot>, now: seq<Slot>, history: seq<Scan>, n: nat, p: Byte, f: nat)
    requires Marking(marked, history, n) && Recorded(marked, now, history, n, p) && TurnedOn(history, n, p)
    requires p != NO_KEY
    requires f < |now| && now[f].key == NO_KEY
    ensures Recorded(marked, now[f := now[f].(key := p, state := true)], history, n, p + 1)
  {
    hide On, TurnedOn, Tracks;
    var next := now[f := now[f].(key := p, state := true)];
    assert now[f] == EMPTY;
    NewKeyIsNew(marked, now, history, n, p);
    forall q: Byte | q < p + 1 && TurnedOn(history, n, q)
      ensures Tracks(next, q)
    {
      TrackedStill(now, next, f, p, q);
    }
  }

  lemma NewKeyIsNew(marked: seq<Slot>, now: seq<Slot>, history: seq<Scan>, n: nat, p: Byte)
    requires Marking(marked, history, n) && Recorded(marked, now, history, n, p) && TurnedOn(history, n, p)
    requires p != NO_KEY
    ensures forall k :: 0 <= k < |now| ==> now[k].key != p
  {
    hide On;
  }

  lemma TrackedStill(now: seq<Slot>, next: seq<Slot>, f: nat, p: Byte, q: Byte)
    requires f < |now| && now[f].key == NO_KEY && p != NO_KEY && next == now[f := now[f].(key := p, state := true)]
    requires q == p || Tracks(now, q)
    ensures Tracks(next, q)
  {
    if q == p {
      assert next[f].key == p;
    } else {
      var k :| 0 <= k < |now| && now[k].key == q;
      assert next[k].key == q;
    }
  }

  // ---- after the keys of a scan are recorded ----

  /** Each tracked key was down before, is down now, or both. */
  ghost predicate Scanned(mid: seq<Slot>, history: seq<Scan>, n: nat) {
    && |mid| == SLOT_COUNT && DistinctSlots(mid)
    && forall k :: 0 <= k < |mid| ==>
         mid[k] == EMPTY
         || (mid[k].key != NO_KEY && (mid[k].prev || mid[k].state) && (mid[k].state <==> On(history, n, mid[k].key)))
  }

  /** The slots with a key of the scan before are the ones they were; the keys of the others are new. */
  ghost predicate Grown(before: seq<Slot>, mid: seq<Slot>) {
    && |mid| == |before|
    && (forall k :: 0 <= k < |mid| ==> (mid[k].prev <==> before[k].key != NO_KEY))
    && (forall k :: 0 <= k < |mid| && before[k].key != NO_KEY ==> mid[k].key == before[k].key)
    && (forall i, k :: 0 <= i < |mid| && 0 <= k < |mid| && before[k].key == NO_KEY && mid[k].key != NO_KEY
                       ==> mid[k].key != before[i].key)
  }

  lemma RecordingDone(before: seq<Slot>, marked: seq<Slot>, mid: seq<Slot>, history: seq<Scan>, n: nat, p: nat)
    requires history != [] && Settled(before) && AllOn(before, history[..|history| - 1], n)
    requires MarkedBelow(before, marked, history, n, SLOT_COUNT) && Recorded(marked, mid, history, n, p)
    ensures Scanned(mid, history, n) && Grown(before, mid)
  {
    hide On;
    MarkingDone(before, marked, history, n);
    forall i, k | 0 <= i < |mid| && 0 <= k < |mid| && before[k].key == NO_KEY && mid[k].key != NO_KEY
      ensures mid[k].key != before[i].key
    {
      assert NewSlot(mid[k], history, n, p);
    }
  }

  lemma RecordedBelow(before: seq<Slot>, marked: seq<Slot>, mid: seq<Slot>, history: seq<Scan>, n: nat, p: nat,
                      size: nat)
    requires AllBelow(before, size) && p <= size
    requires MarkedBelow(before, marked, history, n, SLOT_COUNT) && Recorded(marked, mid, history, n, p)
    ensures AllBelow(mid, size)
  {
    hide On, TurnedOn;
  }

  /** The slots after the scan: keys that went up give up theirs. */
  function Finished(s: Slot): Slot { if s.key != NO_KEY && s.prev && !s.state then EMPTY else s.(prev := s.state) }

  ghost predicate FinishedBelow(mid: seq<Slot>, now: seq<Slot>, j: nat) {
    && |now| == |mid|
    && forall k :: 0 <= k < |now| ==> now[k] == if k < j then Finished(mid[k]) else mid[k]
  }

  lemma FinishedSettled(mid: seq<Slot>, now: seq<Slot>, history: seq<Scan>, n: nat)
    requires Scanned(mid, history, n) && FinishedBelow(mid, now, SLOT_COUNT)
    ensures Settled(now) && AllOn(now, history, n) && forall size :: AllBelow(mid, size) ==> AllBelow(now, size)
    ensures forall k :: 0 <= k < |mid| ==>
              now[k].key == if mid[k].key != NO_KEY && !On(history, n, mid[k].key) then NO_KEY else mid[k].key
  {
    hide On;
  }

  /** Which keys are tracked after a scan, by the slots before it. */
  ghost predicate TrackedAfter(before: seq<Slot>, now: seq<Slot>, history: seq<Scan>, n: nat) {
    && (forall p: Byte :: Tracks(now, p) ==> On(history, n, p) && (Tracks(before, p) || TurnedOn(history, n, p)))
    && (forall p: Byte :: Tracks(before, p) && On(history, n, p) ==> Tracks(now, p))
  }

  // ---- which new keys find a slot ----

  /** The keys up to q that this scan turned on. */
  ghost function NewUpTo(history: seq<Scan>, n: nat, q: Byte): set<Byte> {
    set r: Byte | r <= q && TurnedOn(history, n, r)
  }

  function FreeSlots(slots: seq<Slot>): set<nat> {
    set k: nat | k < |slots| && slots[k].key == NO_KEY
  }

  /** New keys are served in the order of their codes, for as long as there are slots that were free before the scan. */
  ghost predicate ServedInOrder(before: seq<Slot>, now: seq<Slot>, history: seq<Scan>, n: nat, size: nat) {
    forall q: Byte :: q < size && TurnedOn(history, n, q) ==>
      (Tracks(now, q) <==> |NewUpTo(history, n, q)| <= |FreeSlots(before)|)
  }

  /** Slots among the first j that were free and are not any more. */
  function TakenSlots(marked: seq<Slot>, mid: seq<Slot>, j: nat): set<nat>
    requires j <= |marked| == |mid|
  {
    set k: nat | k < j && marked[k].key == NO_KEY && mid[k].key != NO_KEY
  }

  function TakenKeys(marked: seq<Slot>, mid: seq<Slot>, j: nat): (r: set<Byte>)
    requires j <= |marked| == |mid|
    ensures forall q :: q in r <==> exists k :: 0 <= k < j && marked[k].key == NO_KEY && mid[k].key == q != NO_KEY
  {
    if j == 0 then {}
    else
      var front := TakenKeys(marked, mid, j - 1);
      if marked[j - 1].key == NO_KEY && mid[j - 1].key != NO_KEY then front + {mid[j - 1].key} else front
  }

  lemma {:induction false} OneKeyASlot(marked: seq<Slot>, mid: seq<Slot>, j: nat)
    requires j <= |marked| == |mid| && DistinctSlots(mid)
    ensures |TakenKeys(marked, mid, j)| == |TakenSlots(marked, mid, j)|
  {
    hide DistinctSlots, TakenSlots, TakenKeys;
    if j == 0 {
      NoneTaken(marked, mid);
    } else {
      OneKeyASlot(marked, mid, j - 1);
      NextSlotTaken(marked, mid, j - 1);
      NextKeyTaken(marked, mid, j - 1);
    }
  }

  lemma NoneTaken(marked: seq<Slot>, mid: seq<Slot>)
    requires |marked| == |mid|
    ensures TakenSlots(marked, mid, 0) == {} && TakenKeys(marked, mid, 0) == {}
  {
  }

  predicate TakenAt(marked: seq<Slot>, mid: seq<Slot>, k: nat)
    requires k < |marked| == |mid|
  {
    marked[k].key == NO_KEY && mid[k].key != NO_KEY
  }

  lemma NextSlotTaken(marked: seq<Slot>, mid: seq<Slot>, k: nat)
    requires k < |marked| == |mid|
    ensures |TakenSlots(marked, mid, k + 1)| == |TakenSlots(marked, mid, k)| + if TakenAt(marked, mid, k) then 1 else 0
  {
    assert TakenSlots(marked, mid, k + 1)
        == TakenSlots(marked, mid, k) + if TakenAt(marked, mid, k) then {k} else {};
  }

  lemma NextKeyTaken(marked: seq<Slot>, mid: seq<Slot>, k: nat)
    requires k < |marked| == |mid| && DistinctSlots(mid)
    ensures |TakenKeys(marked, mid, k + 1)| == |TakenKeys(marked, mid, k)| + if TakenAt(marked, mid, k) then 1 else 0
  {
    hide DistinctSlots;
    if TakenAt(marked, mid, k) { KeyIsNew(marked, mid, k); }
  }

  lemma KeyIsNew(marked: seq<Slot>, mid: seq<Slot>, k: nat)
    requires k < |marked| == |mid| && DistinctSlots(mid) && mid[k].key != NO_KEY
    ensures mid[k].key !in TakenKeys(marked, mid, k)
  {
  }

  /** The keys in the taken slots are exactly the new keys below p. */
  lemma TakenAreNew(marked: seq<Slot>, mid: seq<Slot>, history: seq<Scan>, n: nat, p: nat, q: Byte)
    requires Marking(marked, history, n) && Recorded(marked, mid, history, n, p)
    ensures q in TakenKeys(marked, mid, |mid|) <==> q < p && TurnedOn(history, n, q) && q != NO_KEY
  {
    hide On, DistinctSlots;
    if q < p && TurnedOn(history, n, q) && q != NO_KEY {
      assert Tracks(mid, q);
      var k :| 0 <= k < |mid| && mid[k].key == q;
      assert marked[k].key == NO_KEY by {
        if marked[k].key != NO_KEY { NotMarked(marked, mid, history, n, p, k, q); }
      }
    }
    if q in TakenKeys(marked, mid, |mid|) {
      var k :| 0 <= k < |mid| && marked[k].key == NO_KEY && mid[k].key == q != NO_KEY;
      assert NewSlot(mid[k], history, n, p);
    }
  }

  /** A key already tracked was on before and so is not new. */
  lemma NotMarked(marked: seq<Slot>, mid: seq<Slot>, history: seq<Scan>, n: nat, p: nat, k: nat, q: Byte)
    requires Marking(marked, history, n) && Recorded(marked, mid, history, n, p) && k < |mid|
    requires marked[k].key != NO_KEY && mid[k].key == q
    ensures !TurnedOn(history, n, q)
  {
    hide On;
  }

  lemma NotYetServed(marked: seq<Slot>, mid: seq<Slot>, history: seq<Scan>, n: nat, p: nat, q: Byte)
    requires Marking(marked, history, n) && Recorded(marked, mid, history, n, p) && TurnedOn(history, n, q) && q >= p
    ensures !Tracks(mid, q)
  {
    hide On;
  }

  /** Recording stopped at p, behind the last key or for want of a slot. */
  lemma RecordedInOrder(marked: seq<Slot>, mid: seq<Slot>, history: seq<Scan>, n: nat, p: nat, size: nat, q: Byte)
    requires Marking(marked, history, n) && Recorded(marked, mid, history, n, p) && p <= size <= NO_KEY
    requires p == size || forall k :: 0 <= k < |mid| ==> mid[k].key != NO_KEY
    requires q < size && TurnedOn(history, n, q)
    ensures Tracks(mid, q) <==> |NewUpTo(history, n, q)| <= |FreeSlots(marked)|
    ensures q < p ==> Tracks(mid, q)
  {
    hide On, TurnedOn, DistinctSlots, Marking, NewSlot;
    var taken, keys := TakenSlots(marked, mid, |mid|), TakenKeys(marked, mid, |mid|);
    var upTo, free := NewUpTo(history, n, q), FreeSlots(marked);
    OneKeyASlot(marked, mid, |mid|);
    forall r: Byte
      ensures r in keys <==> r < p && TurnedOn(history, n, r) && r != NO_KEY
    {
      TakenAreNew(marked, mid, history, n, p, r);
    }
    if q < p {
      SubsetAtMost(upTo, keys);
      SubsetAtMost(taken, free);
    } else {
      NotYetServed(marked, mid, history, n, p, q);
      assert taken == free;
      assert q !in keys;
      SubsetAtMost(keys + {q}, upTo);
    }
  }

  /** A scan keeps what is tracked and on, and serves new keys in order. */
  lemma ScanTracks(before: seq<Slot>, marked: seq<Slot>, mid: seq<Slot>, now: seq<Slot>, history: seq<Scan>, n: nat,
                   p: nat, size: nat)
    requires history != [] && Settled(before) && AllOn(before, history[..|history| - 1], n)
    requires MarkedBelow(before, marked, history, n, SLOT_COUNT) && Recorded(marked, mid, history, n, p)
    requires FinishedBelow(mid, now, SLOT_COUNT) && p <= size <= NO_KEY
    requires p == size || forall k :: 0 <= k < |mid| ==> mid[k].key != NO_KEY
    ensures TrackedAfter(before, now, history, n) && ServedInOrder(before, now, history, n, size)
    ensures forall q: Byte :: q < p && TurnedOn(history, n, q) ==> Tracks(now, q)
  {
    hide On, TurnedOn, Recorded, MarkedBelow, Tracks, Finished, Marking, FreeSlots;
    RecordingDone(before, marked, mid, history, n, p);
    FinishedSettled(mid, now, history, n);
    forall q: Byte | Tracks(now, q)
      ensures On(history, n, q) && (Tracks(before, q) || TurnedOn(history, n, q))
    {
      NowTracked(before, marked, mid, now, history, n, p, q);
    }
    forall q: Byte | Tracks(before, q) && On(history, n, q)
      ensures Tracks(now, q)
    {
      TrackedGrows(before, mid, q);
      OnStays(mid, now, history, n, q);
    }
    MarkingDone(before, marked, history, n);
    SameFree(before, marked, history, n);
    forall q: Byte | q < size && TurnedOn(history, n, q)
      ensures Tracks(now, q) <==> |NewUpTo(history, n, q)| <= |FreeSlots(before)|
      ensures q < p ==> Tracks(now, q)
    {
      RecordedInOrder(marked, mid, history, n, p, size, q);
      TurnedOnIsOn(history, n, q);
      if Tracks(mid, q) { OnStays(mid, now, history, n, q); }
      if Tracks(now, q) { StillThere(mid, now, q); }
    }
  }

  lemma SameFree(before: seq<Slot>, marked: seq<Slot>, history: seq<Scan>, n: nat)
    requires MarkedBelow(before, marked, history, n, |before|)
    ensures FreeSlots(before) == FreeSlots(marked)
  {
    hide On;
  }

  lemma TurnedOnIsOn(history: seq<Scan>, n: nat, q: Byte)
    requires TurnedOn(history, n, q)
    ensures On(history, n, q)
  {
  }

  lemma StillThere(mid: seq<Slot>, now: seq<Slot>, q: Byte)
    requires FinishedBelow(mid, now, |mid|) && Tracks(now, q)
    ensures Tracks(mid, q)
  {
    var k :| 0 <= k < |now| && now[k].key == q;
    assert mid[k].key == q;
  }

  /** No new key is missed if and only if there are no more of them than slots that were free before the scan. */
  lemma AllServedIff(before: seq<Slot>, now: seq<Slot>, history: seq<Scan>, n: nat, size: nat)
    requires ServedInOrder(before, now, history, n, size) && 0 < size <= NO_KEY
    ensures (forall q: Byte :: q < size && TurnedOn(history, n, q) ==> Tracks(now, q)) <==>
            |NewUpTo(history, n, size - 1)| <= |FreeSlots(before)|
  {
    hide TurnedOn, Tracks, FreeSlots;
    var all := NewUpTo(history, n, size - 1);
    if |all| <= |FreeSlots(before)| {
      forall q: Byte | q < size && TurnedOn(history, n, q)
        ensures Tracks(now, q)
      {
        SubsetAtMost(NewUpTo(history, n, q), all);
      }
    } else {
      var last := LastNew(history, n, size - 1);
      assert NewUpTo(history, n, last) == all;
    }
  }

  /** With a debounce length of one scan, a key is on exactly when the last scan saw it. */
  lemma OnNow(history: seq<Scan>, p: Byte)
    requires history != []
    ensures On(history, 1, p) <==> p in history[|history| - 1]
  {
    assert Seen(history, 0, p) <==> p in history[|history| - 1];
  }

  /** All slots are taken, and in the same scan one of their keys goes up and another goes down: that one is missed. */
  lemma FreedTooLate() returns (before: seq<Slot>, history: seq<Scan>)
    ensures Settled(before) && history != [] && AllOn(before, history[..|history| - 1], 1)
    ensures Tracks(before, 0) && !On(history, 1, 0) && TurnedOn(history, 1, 14)
    ensures forall now, size :: ServedInOrder(before, now, history, 1, size) && 14 < size ==> !Tracks(now, 14)
  {
    hide On;
    before := seq(SLOT_COUNT, i requires 0 <= i < SLOT_COUNT => Slot(i, true, true, false));
    var down: Scan := {0, 1, 2, 3, 4, 5, 6, 7, 8, 9, 10, 11, 12, 13};
    history := [down, down - {0} + {14}];
    assert history[..1] == [down] && before[0].key == 0;
    forall p: Byte
      ensures On([down], 1, p) <==> p < 14
      ensures On(history, 1, p) <==> 0 < p < 15
    {
      OnNow([down], p);
      OnNow(history, p);
    }
    assert FreeSlots(before) == {};
    assert 14 in NewUpTo(history, 1, 14);
  }

  lemma {:induction false} LastNew(history: seq<Scan>, n: nat, q: Byte) returns (last: Byte)
    requires |NewUpTo(history, n, q)| > 0
    ensures last <= q && TurnedOn(history, n, last) && forall r: Byte :: last < r <= q ==> !TurnedOn(history, n, r)
    decreases q
  {
    hide TurnedOn;
    if TurnedOn(history, n, q) {
      last := q;
    } else {
      var some :| some in NewUpTo(history, n, q);
      assert NewUpTo(history, n, q) == NewUpTo(history, n, q - 1);
      last := LastNew(history, n, q - 1);
    }
  }

  lemma OnStays(mid: seq<Slot>, now: seq<Slot>, history: seq<Scan>, n: nat, q: Byte)
    requires Scanned(mid, history, n) && FinishedBelow(mid, now, SLOT_COUNT) && Tracks(mid, q) && On(history, n, q)
    ensures Tracks(now, q)
  {
    hide On;
    var k :| 0 <= k < |mid| && mid[k].key == q;
    assert now[k].key == q;
  }

  lemma NowTracked(before: seq<Slot>, marked: seq<Slot>, mid: seq<Slot>, now: seq<Slot>, history: seq<Scan>, n: nat,
                   p: nat, q: Byte)
    requires history != [] && Settled(before) && Settled(now) && AllOn(now, history, n)
    requires MarkedBelow(before, marked, history, n, SLOT_COUNT) && Recorded(marked, mid, history, n, p)
    requires FinishedBelow(mid, now, SLOT_COUNT) && Tracks(now, q)
    ensures On(history, n, q) && (Tracks(before, q) || TurnedOn(history, n, q))
  {
    hide On, TurnedOn;
    var k :| 0 <= k < |now| && now[k].key == q;
    assert mid[k].key == q;
    if before[k].key != NO_KEY { assert before[k].key == q; } else { assert NewSlot(mid[k], history, n, p); }
  }

  // ---- events ----

  /** What a listener needs to know: base definitions of the keys, and the layers before and after the scan. */
  datatype Context = Context(defs: seq<Byte>, layerSize: nat, was: Layer, now: Layer)

  predicate Reportable(c: Context, p: Byte) {
    p as int < |c.defs| && Notifiable(c.defs[p])
  }

  /** How listeners see the key of a slot, before or after the scan's events for it. */
  function Expected(s: Slot, done: bool, c: Context): Held {
    if s.key == NO_KEY || !Reportable(c, s.key) then Up
    else if done then (if s.state then Down(Code(c.now, s.key, c.layerSize)) else Up)
    else if s.prev then Down(Code(c.was, s.key, c.layerSize))
    else Up
  }

  predicate LayerChange(c: Context) { LayerId(c.was) != LayerId(c.now) }

  /** The events of one slot: on a layer change a held key is released on the old layer and pressed on the new one. */
  function Events(s: Slot, c: Context): seq<Event> {
    var released := Event(s.key, Code(c.was, s.key, c.layerSize), false);
    var pressed := Event(s.key, Code(c.now, s.key, c.layerSize), true);
    if s.key == NO_KEY || !Reportable(c, s.key) then []
    else if LayerChange(c) then (if s.prev then [released] else []) + (if s.state then [pressed] else [])
    else if s.prev == s.state then []
    else if s.state then [pressed]
    else [released.(code := Code(c.now, s.key, c.layerSize))]
  }

  ghost predicate Matching(es: seq<Event>, mid: seq<Slot>, j: nat, c: Context) {
    && Alternates(es)
    && (forall k :: 0 <= k < |mid| && mid[k].key != NO_KEY ==> HeldAs(es, mid[k].key) == Expected(mid[k], k < j, c))
    && (forall p: Byte :: !Tracks(mid, p) ==> HeldAs(es, p) == Up)
  }

  lemma SlotEvents(es: seq<Event>, s: Slot, c: Context)
    requires Alternates(es) && s.key != NO_KEY && HeldAs(es, s.key) == Expected(s, false, c)
    requires c.was.id < 0xFF && c.now.id < 0xFF
    ensures Alternates(es + Events(s, c)) && HeldAs(es + Events(s, c), s.key) == Expected(s, true, c)
    ensures forall p :: p != s.key ==> HeldAs(es + Events(s, c), p) == HeldAs(es, p)
  {
    hide Alternates, HeldAs, Code;
    var r := Event(s.key, Code(c.was, s.key, c.layerSize), false);
    var p := Event(s.key, Code(c.now, s.key, c.layerSize), true);
    if !LayerChange(c) { SameLayerSameCode(c.was, c.now, s.key, c.layerSize); }
    if !Reportable(c, s.key) || (!LayerChange(c) && s.prev == s.state) || (!s.prev && !s.state) {
      assert es + Events(s, c) == es;
    } else if s.prev && s.state {
      OneMoreEvent(es, r);
      OneMoreEvent(es + [r], p);
      assert es + Events(s, c) == es + [r] + [p];
    } else {
      OneMoreEvent(es, if s.state then p else r);
      assert es + Events(s, c) == es + [if s.state then p else r];
    }
  }

  lemma MatchingStep(es: seq<Event>, mid: seq<Slot>, j: nat, c: Context)
    requires DistinctSlots(mid) && j < |mid| && Matching(es, mid, j, c) && c.was.id < 0xFF && c.now.id < 0xFF
    ensures Matching(es + Events(mid[j], c), mid, j + 1, c)
  {
    hide Alternates, HeldAs, Expected, Events;
    if mid[j].key == NO_KEY {
      NoEvents(es, mid[j], c);
    } else {
      assert Tracks(mid, mid[j].key);
      SlotEvents(es, mid[j], c);
    }
  }

  /** The events of the first j slots. */
  function EventsBelow(mid: seq<Slot>, j: nat, c: Context): seq<Event>
    requires j <= |mid|
  {
    if j == 0 then [] else EventsBelow(mid, j - 1, c) + Events(mid[j - 1], c)
  }

  lemma {:induction false} EventOfSlot(mid: seq<Slot>, j: nat, c: Context, e: Event) returns (k: nat)
    requires j <= |mid| && e in EventsBelow(mid, j, c)
    ensures k < j && mid[k].key == e.key && e in Events(mid[k], c)
  {
    hide Events, Sparse;
    k := j - 1;
    SlotSparse(mid[k], c);
    if e !in Events(mid[k], c) { k := EventOfSlot(mid, j - 1, c, e); }
  }

  /** A key has at most one event, or on a layer change a release and then a press. */
  ghost predicate Sparse(es: seq<Event>, layerChange: bool) {
    forall i, j :: 0 <= i < j < |es| && es[i].key == es[j].key ==> layerChange && !es[i].press && es[j].press
  }

  lemma SlotSparse(s: Slot, c: Context)
    ensures Sparse(Events(s, c), LayerChange(c)) && forall e :: e in Events(s, c) ==> e.key == s.key != NO_KEY
  {
    hide Code, LayerId;
  }

  lemma {:induction false} EventsSparse(mid: seq<Slot>, j: nat, c: Context)
    requires DistinctSlots(mid) && j <= |mid|
    ensures Sparse(EventsBelow(mid, j, c), LayerChange(c))
  {
    hide Events, Sparse, LayerChange;
    NothingSparse(LayerChange(c));
    if j > 0 {
      EventsSparse(mid, j - 1, c);
      var a, b := EventsBelow(mid, j - 1, c), Events(mid[j - 1], c);
      SlotSparse(mid[j - 1], c);
      forall x, y | x in a && y in b
        ensures x.key != y.key
      {
        var k := EventOfSlot(mid, j - 1, c, x);
      }
      SparseJoin(a, b, LayerChange(c));
    }
  }

  lemma NothingSparse(layerChange: bool)
    ensures Sparse([], layerChange)
  {
  }

  lemma SparseJoin(a: seq<Event>, b: seq<Event>, layerChange: bool)
    requires Sparse(a, layerChange) && Sparse(b, layerChange) && forall x, y :: x in a && y in b ==> x.key != y.key
    ensures Sparse(a + b, layerChange)
  {
    var r := a + b;
    assert forall i :: 0 <= i < |a| ==> r[i] in a;
    assert forall i :: |a| <= i < |r| ==> r[i] in b;
  }

  /** Without a layer change listeners hear only of keys that changed for them. */
  lemma EventMeansChange(before: seq<Event>, after: seq<Event>, mid: seq<Slot>, c: Context, e: Event)
    requires Matching(before, mid, 0, c) && Matching(after, mid, |mid|, c) && e in EventsBelow(mid, |mid|, c)
    requires !LayerChange(c)
    ensures HeldAs(before, e.key) != HeldAs(after, e.key)
  {
    hide Alternates, HeldAs, Code;
    var k := EventOfSlot(mid, |mid|, c, e);
  }

  lemma NoEvents(es: seq<Event>, s: Slot, c: Context)
    requires s.key == NO_KEY
    ensures es + Events(s, c) == es
  {
  }

  /**
   * Between scans a key is down for listeners exactly when it is tracked and reportable, with
   * its code on the layer in force.
   */
  ghost predicate Reported(es: seq<Event>, slots: seq<Slot>, l: Layer, defs: seq<Byte>, layerSize: nat) {
    && Alternates(es)
    && (forall k :: 0 <= k < |slots| && slots[k].key != NO_KEY ==>
          HeldAs(es, slots[k].key) == Expected(slots[k], true, Context(defs, layerSize, l, l)))
    && (forall p: Byte :: !Tracks(slots, p) ==> HeldAs(es, p) == Up)
  }

  lemma MatchingStart(es: seq<Event>, before: seq<Slot>, mid: seq<Slot>, c: Context)
    requires Reported(es, before, c.was, c.defs, c.layerSize) && Settled(before) && Grown(before, mid)
    ensures Matching(es, mid, 0, c)
  {
    hide Alternates, HeldAs, Code;
    forall k | 0 <= k < |mid| && mid[k].key != NO_KEY
      ensures HeldAs(es, mid[k].key) == Expected(mid[k], false, c)
    {
      if before[k].key == NO_KEY { assert !Tracks(before, mid[k].key); }
    }
    forall p: Byte | !Tracks(mid, p)
      ensures HeldAs(es, p) == Up
    {
      if Tracks(before, p) { TrackedGrows(before, mid, p); }
    }
  }

  lemma TrackedGrows(before: seq<Slot>, mid: seq<Slot>, p: Byte)
    requires Grown(before, mid) && Tracks(before, p)
    ensures Tracks(mid, p)
  {
    var k :| 0 <= k < |before| && before[k].key == p;
    assert mid[k].key == p;
  }

  lemma MatchingEnd(es: seq<Event>, mid: seq<Slot>, now: seq<Slot>, c: Context)
    requires Matching(es, mid, |mid|, c) && FinishedBelow(mid, now, |mid|) && DistinctSlots(mid)
    ensures Reported(es, now, c.now, c.defs, c.layerSize)
  {
    hide Alternates, HeldAs, Code;
    forall p: Byte | !Tracks(now, p)
      ensures HeldAs(es, p) == Up
    {
      if Tracks(mid, p) {
        var k :| 0 <= k < |mid| && mid[k].key == p;
        assert now[k].key != p;
      }
    }
  }

  // ---- the running count ----

  /** How many of the first n slots listeners see as down, when the events of those below j have been sent. */
  function DownCount(mid: seq<Slot>, j: nat, n: nat, c: Context): nat
    requires n <= |mid|
  {
    if n == 0 then 0 else DownCount(mid, j, n - 1, c) + if Expected(mid[n - 1], n - 1 < j, c).Down? then 1 else 0
  }

  lemma {:induction false} CountStep(mid: seq<Slot>, j: nat, n: nat, c: Context)
    requires j < |mid| && n <= |mid|
    ensures DownCount(mid, j + 1, n, c) == DownCount(mid, j, n, c)
            + if j < n then (if Expected(mid[j], true, c).Down? then 1
                else 0) - (if Expected(mid[j], false, c).Down? then 1 else 0) else 0
    ensures j < n && Expected(mid[j], false, c).Down? ==> DownCount(mid, j, n, c) >= 1
  {
    hide Expected;
    if n > 0 { CountStep(mid, j, n - 1, c); }
  }

  /** The tracked keys among the first n slots that are reported to listeners. */
  function ReportedCount(slots: seq<Slot>, n: nat, c: Context): (r: nat)
    requires n <= |slots|
    ensures r <= n
  {
    if n == 0 then 0
    else ReportedCount(slots, n - 1, c) + if slots[n - 1].key != NO_KEY && Reportable(c, slots[n - 1].key) then 1 else 0
  }

  lemma {:induction false} CountStart(before: seq<Slot>, mid: seq<Slot>, n: nat, was: Context, c: Context)
    requires Settled(before) && Grown(before, mid) && n <= |mid| && was.defs == c.defs
    requires forall k :: 0 <= k < |mid| ==> mid[k].key == NO_KEY ==> !mid[k].prev
    ensures DownCount(mid, 0, n, c) == ReportedCount(before, n, was)
  {
    if n > 0 { CountStart(before, mid, n - 1, was, c); }
  }

  lemma {:induction false} CountEnd(mid: seq<Slot>, now: seq<Slot>, n: nat, c: Context)
    requires FinishedBelow(mid, now, |mid|) && n <= |mid|
    requires forall k :: 0 <= k < |mid| ==> mid[k] == EMPTY || (mid[k].key != NO_KEY && (mid[k].prev || mid[k].state))
    ensures DownCount(mid, |mid|, n, c) == ReportedCount(now, n, c)
  {
    if n > 0 { CountEnd(mid, now, n - 1, c); }
  }

  // ---- layers ----

  /** The layer keys among the first j slots act in slot order. */
  function LayerAfter(mid: seq<Slot>, l: Layer, defs: seq<Byte>, j: nat): Layer
    requires j <= |mid|
  {
    if j == 0 then l
    else
      var before, s := LayerAfter(mid, l, defs, j - 1), mid[j - 1];
      if s.key as int < |defs| && s.key != NO_KEY && NoRemap(defs[s.key]) && s.state != s.prev
      then Shifted(before, defs[s.key], s.state)
      else before
  }

  lemma {:induction false} LayerInRange(mid: seq<Slot>, l: Layer, defs: seq<Byte>, j: nat)
    requires j <= |mid| && l.id < 0xFF
    ensures LayerAfter(mid, l, defs, j).id < 0xFF
  {
    if j > 0 { LayerInRange(mid, l, defs, j - 1); }
  }
}
