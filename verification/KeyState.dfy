/**
 * Key scanning (keystate.c): debounced keys are tracked in fourteen slots, layer keys change
 * which logical code a key has, and listeners hear of presses and releases.
 */
module KeyState {
  import opened Bytes
  import opened Debouncing
  import opened KeyEvents
  import opened KeySlots

  class Keyboard {
    const debouncer: Debouncer
    const defs: seq<Byte>           // the code each logical key is mapped to
    const layerSize: nat
    const slots: array<Slot>
    var layer: Layer
    var prevLayer: Layer
    var pressCount: nat
    ghost var events: seq<Event>    // everything listeners were told

    ghost predicate Shaped()
      reads debouncer, debouncer.ring, debouncer.on, debouncer.turnedOn
    {
      && Apart() && debouncer.Valid() && slots.Length == SLOT_COUNT && debouncer.words * WORD_BITS <= |defs|
      && debouncer.words * WORD_BITS <= NO_KEY
    }

    /** The slot table is not part of the debouncer. */
    ghost predicate Apart() {
      var table: object := slots;
      table !in {debouncer as object, debouncer.ring, debouncer.on, debouncer.turnedOn}
    }

    ghost function Scans(): seq<Scan>
      reads debouncer`history
    {
      debouncer.history
    }

    ghost function Here(): Context
      reads this
    {
      Context(defs, layerSize, prevLayer, layer)
    }

    ghost predicate Valid()
      reads this, slots, debouncer, debouncer.ring, debouncer.on, debouncer.turnedOn
    {
      && Shaped() && prevLayer == layer && layer.id < 0xFF
      && Settled(slots[..]) && AllOn(slots[..], Scans(), debouncer.length)
      && AllBelow(slots[..], debouncer.words * WORD_BITS)
      && Reported(events, slots[..], layer, defs, layerSize)
      && pressCount == ReportedCount(slots[..], SLOT_COUNT, Here())
    }

    constructor (debouncer: Debouncer, defs: seq<Byte>, layerSize: nat)
      requires debouncer.Valid() && debouncer.words * WORD_BITS <= |defs| && debouncer.words * WORD_BITS <= NO_KEY
      ensures Valid() && events == [] && pressCount == 0 && forall p: Byte :: !Tracks(slots[..], p)
      ensures this.debouncer == debouncer && this.defs == defs && this.layerSize == layerSize && fresh(slots)
    {
      this.debouncer, this.defs, this.layerSize := debouncer, defs, layerSize;
      slots := new Slot[SLOT_COUNT](_ => EMPTY);
      layer, prevLayer := Layer(false, false, 0), Layer(false, false, 0);
      pressCount, events := 0, [];
      new;
      NoneReported(slots[..], SLOT_COUNT, Here());
    }

    // ---- recording a scan ----

    /** Marks the keys that are no longer down. */
    method MarkReleased()
      requires Shaped() && |slots[..]| == SLOT_COUNT && AllBelow(slots[..], debouncer.words * WORD_BITS)
      modifies slots
      ensures Shaped()
      ensures MarkedBelow(old(slots[..]), slots[..], Scans(), debouncer.length, SLOT_COUNT)
    {
      hide On;
      ghost var before := slots[..];
      var j := 0;
      while j < SLOT_COUNT
        invariant 0 <= j <= SLOT_COUNT && Shaped() && MarkedBelow(before, slots[..], Scans(), debouncer.length, j)
      {
        if slots[j].key != NO_KEY {
          assert before[j].key == slots[j].key;
          debouncer.IsOn(slots[j].key);
          if !debouncer.KeyBit(debouncer.on, slots[j].key) {
            slots[j] := slots[j].(state := false);
          }
        }
        j := j + 1;
      }
    }

    /** The next free slot from `from` on. */
    method FindFree(from: nat) returns (f: nat)
      requires slots.Length == SLOT_COUNT && from <= SLOT_COUNT
      ensures from <= f <= SLOT_COUNT && (f < SLOT_COUNT ==> slots[f].key == NO_KEY)
      ensures forall k :: from <= k < f ==> slots[k].key != NO_KEY
    {
      f := from;
      while f < SLOT_COUNT && slots[f].key != NO_KEY
        invariant from <= f <= SLOT_COUNT && forall k :: from <= k < f ==> slots[k].key != NO_KEY
      {
        f := f + 1;
      }
    }

    /** Puts the keys turned on in one word into free slots, until there are none left. */
    method RecordWord(w: nat, free: nat, ghost marked: seq<Slot>) returns (next: nat, full: bool, ghost limit: nat)
      requires Shaped() && w < debouncer.words && free <= SLOT_COUNT && Marking(marked, Scans(), debouncer.length)
      requires Recorded(marked, slots[..], Scans(), debouncer.length, KeyOf(w, 0))
      requires forall k :: 0 <= k < free ==> slots[k].key != NO_KEY
      modifies slots
      ensures Shaped() && next <= SLOT_COUNT && Recorded(marked, slots[..], Scans(), debouncer.length, limit)
      ensures forall k :: 0 <= k < next ==> slots[k].key != NO_KEY
      ensures limit <= KeyOf(w + 1, 0) && if full then next == SLOT_COUNT else limit == KeyOf(w + 1, 0)
    {
      hide Marking, Recorded, TurnedOn, Bit, On;
      next, full, limit := free, false, KeyOf(w, 0);
      var b := 0;
      while b < WORD_BITS
        invariant 0 <= b <= WORD_BITS && Shaped() && next <= SLOT_COUNT && limit == KeyOf(w, b)
        invariant Recorded(marked, slots[..], Scans(), debouncer.length, limit)
        invariant forall k :: 0 <= k < next ==> slots[k].key != NO_KEY
      {
        var p: Byte := KeyOf(w, b);
        KeyPlaceUnique(w, b);
        debouncer.IsOn(p);
        if debouncer.KeyBit(debouncer.turnedOn, p) {
          next := FindFree(next);
          if next >= SLOT_COUNT {
            return next, true, limit;
          }
          KeyRecorded(marked, slots[..], Scans(), debouncer.length, p, next);
          slots[next] := slots[next].(key := p, state := true);
        } else {
          NotTurnedOn(marked, slots[..], Scans(), debouncer.length, p);
        }
        b := b + 1;
        limit := p + 1;
      }
    }

    lemma EmptyWord(w: nat, marked: seq<Slot>)
      requires Shaped() && w < debouncer.words && debouncer.turnedOn[w] == 0
      requires Recorded(marked, slots[..], Scans(), debouncer.length, KeyOf(w, 0))
      ensures Recorded(marked, slots[..], Scans(), debouncer.length, KeyOf(w + 1, 0))
    {
      hide Recorded, TurnedOn, Bit, On;
      var b := 0;
      while b < WORD_BITS
        invariant 0 <= b <= WORD_BITS && Recorded(marked, slots[..], Scans(), debouncer.length, KeyOf(w, b))
      {
        var p: Byte := KeyOf(w, b);
        KeyPlaceUnique(w, b);
        NotBit(0, b);
        debouncer.IsOn(p);
        NotTurnedOn(marked, slots[..], Scans(), debouncer.length, p);
        b := b + 1;
      }
    }

    /** Tracks the keys this scan turned on; one is missed only when no slot is free. */
    method RecordPresses() returns (ghost limit: nat)
      requires Shaped() && Marking(slots[..], Scans(), debouncer.length)
      modifies slots
      ensures Shaped() && Recorded(old(slots[..]), slots[..], Scans(), debouncer.length, limit)
      ensures limit <= debouncer.words * WORD_BITS
      ensures limit == debouncer.words * WORD_BITS || forall k :: 0 <= k < SLOT_COUNT ==> slots[k].key != NO_KEY
    {
      hide Marking, Recorded, TurnedOn, Bit, On;
      ghost var marked := slots[..];
      NothingRecorded(marked, Scans(), debouncer.length);
      limit := 0;
      var free, w := 0, 0;
      while w < debouncer.words
        invariant 0 <= w <= debouncer.words && Shaped() && 0 <= free <= SLOT_COUNT && limit == KeyOf(w, 0)
        invariant Recorded(marked, slots[..], Scans(), debouncer.length, limit)
        invariant forall k :: 0 <= k < free ==> slots[k].key != NO_KEY
      {
        if debouncer.turnedOn[w] == 0 {
          EmptyWord(w, marked);
          limit := KeyOf(w + 1, 0);
        } else {
          var full;
          free, full, limit := RecordWord(w, free, marked);
          if full {
            return;
          }
        }
        w := w + 1;
      }
    }

    // ---- layers and listeners ----

    /** Applies the layer keys that changed in this scan. */
    method DecodeLayer()
      requires slots.Length == SLOT_COUNT && AllBelow(slots[..], |defs|)
      modifies `layer
      ensures layer == LayerAfter(slots[..], old(layer), defs, SLOT_COUNT)
    {
      hide Shifted;
      ghost var l := layer;
      var j := 0;
      while j < SLOT_COUNT
        invariant 0 <= j <= SLOT_COUNT && layer == LayerAfter(slots[..], l, defs, j)
      {
        if slots[j].key != NO_KEY {
          var h := defs[slots[j].key];
          if NoRemap(h) && slots[j].state != slots[j].prev {
            layer := Shifted(layer, h, slots[j].state);
          }
        }
        j := j + 1;
      }
    }

    method NotifyPressed(l: Layer, p: Byte)
      modifies `pressCount, `events
      ensures pressCount == old(pressCount) + 1 && events == old(events) + [Event(p, Code(l, p, layerSize), true)]
    {
      pressCount := pressCount + 1;
      events := events + [Event(p, Code(l, p, layerSize), true)];
    }

    method NotifyReleased(l: Layer, p: Byte)
      requires pressCount > 0
      modifies `pressCount, `events
      ensures pressCount == old(pressCount) - 1 && events == old(events) + [Event(p, Code(l, p, layerSize), false)]
    {
      pressCount := pressCount - 1;
      events := events + [Event(p, Code(l, p, layerSize), false)];
    }

    method NotifyAboutKeyChange(layerChange: bool, s: Slot)
      requires s.key != NO_KEY && Reportable(Here(), s.key) && layerChange == LayerChange(Here())
      requires (layerChange || s.prev != s.state)
      requires Expected(s, false, Here()).Down? ==> pressCount > 0
      modifies `pressCount, `events
      ensures events == old(events) + Events(s, old(Here()))
      ensures pressCount == old(pressCount) + (if s.state then 1 else 0) - (if s.prev then 1 else 0)
    {
      hide Code;
      if layerChange {
        if s.prev && s.state {
          NotifyReleased(prevLayer, s.key);
          NotifyPressed(layer, s.key);
        } else if s.state {
          NotifyPressed(layer, s.key);
        } else if s.prev {
          NotifyReleased(prevLayer, s.key);
        }
      } else if s.state {
        NotifyPressed(layer, s.key);
      } else {
        NotifyReleased(layer, s.key);
      }
    }

    /** Tells listeners about one slot, and frees it when its key went up. */
    method NotifySlot(j: nat, layerChange: bool, ghost mid: seq<Slot>)
      requires slots.Length == SLOT_COUNT == |mid| && j < SLOT_COUNT && slots[j] == mid[j]
      requires layerChange == LayerChange(Here())
      requires DistinctSlots(mid) && AllBelow(mid, |defs|) && prevLayer.id < 0xFF && layer.id < 0xFF
      requires mid[j] == EMPTY || mid[j].key != NO_KEY
      requires Matching(events, mid, j, Here()) && pressCount == DownCount(mid, j, SLOT_COUNT, Here())
      modifies slots, `pressCount, `events
      ensures slots[..] == old(slots[..])[j := Finished(mid[j])] && events == old(events) + Events(mid[j], Here())
      ensures Matching(events, mid, j + 1, Here()) && pressCount == DownCount(mid, j + 1, SLOT_COUNT, Here())
    {
      hide Matching, Code, LayerId;
      ghost var c := Here();
      var s := slots[j];
      MatchingStep(events, mid, j, c);
      CountStep(mid, j, SLOT_COUNT, c);
      if s.key == NO_KEY || !Reportable(c, s.key) || (!layerChange && s.prev == s.state) {
        QuietSlot(events, s, c);
      }
      if s.key != NO_KEY && (layerChange || s.prev != s.state) {
        if Notifiable(defs[s.key]) {
          NotifyAboutKeyChange(layerChange, s);
        }
        slots[j] := if s.prev && !s.state then EMPTY else s.(prev := s.state);
      }
      assert slots[..] == old(slots[..])[j := Finished(mid[j])];
    }

    /** Tells listeners about all slots. */
    method NotifySlots()
      requires slots.Length == SLOT_COUNT && DistinctSlots(slots[..]) && AllBelow(slots[..], |defs|)
      requires forall k :: 0 <= k < SLOT_COUNT ==> slots[k] == EMPTY || slots[k].key != NO_KEY
      requires prevLayer.id < 0xFF && layer.id < 0xFF
      requires Matching(events, slots[..], 0, Here()) && pressCount == DownCount(slots[..], 0, SLOT_COUNT, Here())
      modifies slots, `pressCount, `events
      ensures events == old(events) + EventsBelow(old(slots[..]), SLOT_COUNT, Here())
      ensures FinishedBelow(old(slots[..]), slots[..], SLOT_COUNT)
      ensures Matching(events, old(slots[..]), SLOT_COUNT, Here())
      ensures pressCount == DownCount(old(slots[..]), SLOT_COUNT, SLOT_COUNT, Here())
    {
      hide Matching, DownCount, Finished, DistinctSlots, AllBelow, Events, LayerChange, FinishedBelow, EventsBelow;
      ChangeIs(Here());
      ghost var mid, es := slots[..], events;
      NothingFinished(mid, Here());
      var layerChange := LayerId(layer) != LayerId(prevLayer);
      var j := 0;
      while j < SLOT_COUNT
        invariant 0 <= j <= SLOT_COUNT && FinishedBelow(mid, slots[..], j)
        invariant events == es + EventsBelow(mid, j, Here())
        invariant Matching(events, mid, j, Here()) && pressCount == DownCount(mid, j, SLOT_COUNT, Here())
      {
        SlotFinished(mid, slots[..], j, es, events, Here());
        NotifySlot(j, layerChange, mid);
        j := j + 1;
      }
    }

    // ---- one scan ----

    /** Marks, records and reads layers: the slots in the middle of a scan. */
    method RecordScan(down: seq<bool>) returns (ghost marked: seq<Slot>, ghost limit: nat)
      requires Valid() && |down| == |debouncer.matrix|
      modifies slots, `layer, debouncer`index, debouncer`history, debouncer.ring, debouncer.on, debouncer.turnedOn
      ensures Shaped() && Scans() == old(Scans()) + [KeysDown(debouncer.matrix, down, |down|)]
      ensures MarkedBelow(old(slots[..]), marked, Scans(), debouncer.length, SLOT_COUNT)
      ensures Recorded(marked, slots[..], Scans(), debouncer.length, limit) && limit <= debouncer.words * WORD_BITS
      ensures limit == debouncer.words * WORD_BITS || forall k :: 0 <= k < SLOT_COUNT ==> slots[k].key != NO_KEY
      ensures layer == LayerAfter(slots[..], old(layer), defs, SLOT_COUNT)
      ensures AllBelow(slots[..], debouncer.words * WORD_BITS)
    {
      hide Reported, On, TurnedOn, LayerAfter, DistinctSlots, Recorded, MarkedBelow;
      ghost var before, scans := slots[..], Scans();
      debouncer.Update(down);
      assert Scans()[..|Scans()| - 1] == scans;
      MarkReleased();
      marked := slots[..];
      MarkingDone(before, marked, Scans(), debouncer.length);
      limit := RecordPresses();
      RecordedBelow(before, marked, slots[..], Scans(), debouncer.length, limit, debouncer.words * WORD_BITS);
      DecodeLayer();
    }

    /**
     * One scan of the matrix. Listeners hear of a key only when it changed for them or the layer
     * did; a key just turned on is missed only when no slot was free for it.
     */
    method Update(down: seq<bool>) returns (ghost mid: seq<Slot>)
      requires Valid() && |down| == |debouncer.matrix|
      modifies this, slots, debouncer`index, debouncer`history, debouncer.ring, debouncer.on, debouncer.turnedOn
      ensures Valid() && Scans() == old(Scans()) + [KeysDown(debouncer.matrix, down, |down|)]
      ensures TrackedAfter(old(slots[..]), slots[..], Scans(), debouncer.length)
      ensures Grown(old(slots[..]), mid) && FinishedBelow(mid, slots[..], SLOT_COUNT)
      ensures |mid| == SLOT_COUNT && layer == LayerAfter(mid, old(layer), defs, SLOT_COUNT)
      ensures ServedInOrder(old(slots[..]), slots[..], Scans(), debouncer.length, debouncer.words * WORD_BITS)
      ensures (forall p: Byte :: p < debouncer.words * WORD_BITS && TurnedOn(Scans(), debouncer.length, p) ==>
              Tracks(slots[..], p))
              || forall k :: 0 <= k < SLOT_COUNT ==> old(slots[k]).key != NO_KEY || slots[k].key != NO_KEY
      ensures old(events) <= events
      ensures Sparse(events[|old(events)|..], LayerId(old(layer)) != LayerId(layer))
      ensures LayerId(old(layer)) == LayerId(layer) ==>
                forall e :: e in events[|old(events)|..] ==> HeldAs(old(events), e.key) != HeldAs(events, e.key)
    {
      hide Reported, On, TurnedOn, LayerAfter, DistinctSlots, Recorded, MarkedBelow, Matching, Settled, AllOn,
           AllBelow, Grown, Scanned, DownCount, ReportedCount, FinishedBelow, TrackedAfter, Tracks, EventsBelow,
           Sparse, HeldAs, ServedInOrder;
      ghost var before, was, h := slots[..], layer, Here();
      ghost var marked, limit := RecordScan(down);
      assert Scans()[..|Scans()| - 1] == old(Scans());
      mid := slots[..];
      ghost var n, c := debouncer.length, Here();
      RecordingDone(before, marked, mid, Scans(), n, limit);
      ScannedSlots(before, mid, Scans(), n);
      LayerInRange(mid, was, defs, SLOT_COUNT);
      MatchingStart(events, before, mid, c);
      CountStart(before, mid, SLOT_COUNT, h, c);
      BelowMore(mid, debouncer.words * WORD_BITS, |defs|);
      NotifySlots();
      EventsSparse(mid, SLOT_COUNT, c);
      assert events[|old(events)|..] == EventsBelow(mid, SLOT_COUNT, c);
      forall e | e in EventsBelow(mid, SLOT_COUNT, c) && !LayerChange(c)
        ensures HeldAs(old(events), e.key) != HeldAs(events, e.key)
      {
        EventMeansChange(old(events), events, mid, c, e);
      }
      FinishedSettled(mid, slots[..], Scans(), n);
      MatchingEnd(events, mid, slots[..], c);
      CountEnd(mid, slots[..], SLOT_COUNT, c);
      ScanTracks(before, marked, mid, slots[..], Scans(), n, limit, debouncer.words * WORD_BITS);
      FreedSlots(before, mid, slots[..]);
      prevLayer := layer;
      SameCount(slots[..], SLOT_COUNT, c, Here());
    }

    /** Any number of scans. */
    method Run(downs: seq<seq<bool>>)
      requires Valid() && forall i :: 0 <= i < |downs| ==> |downs[i]| == |debouncer.matrix|
      modifies this, slots, debouncer`index, debouncer`history, debouncer.ring, debouncer.on, debouncer.turnedOn
      ensures Valid() && |Scans()| == |old(Scans())| + |downs| && old(events) <= events
      ensures forall i :: 0 <= i < |downs| ==>
                Scans()[|old(Scans())| + i] == KeysDown(debouncer.matrix, downs[i], |downs[i]|)
    {
      hide Valid;
      ghost var before, n := events, |Scans()|;
      var i := 0;
      while i < |downs|
        invariant 0 <= i <= |downs| && Valid() && |Scans()| == n + i && before <= events
        invariant forall k :: 0 <= k < i ==> Scans()[n + k] == KeysDown(debouncer.matrix, downs[k], |downs[k]|)
      {
        ghost var scans, es := Scans(), events;
        ghost var mid := Update(downs[i]);
        PrefixOf(before, es, events);
        assert scans <= Scans();
        i := i + 1;
      }
    }

    /** After any number of scans: what listeners believe is down, and how many keys that are. */
    lemma ListenersAgree(p: Byte)
      requires Valid()
      ensures Tracks(slots[..], p) ==> On(Scans(), debouncer.length, p)
      ensures Alternates(events)
      ensures HeldAs(events, p) == if Tracks(slots[..], p) && Reportable(Here(), p)
              then Down(Code(layer, p, layerSize)) else Up
      ensures pressCount == |DownSlots(slots[..], SLOT_COUNT, Here())|
    {
      hide On, HeldAs, Alternates, Code;
      CountIsSize(slots[..], SLOT_COUNT, Here());
      if Tracks(slots[..], p) {
        var k :| 0 <= k < SLOT_COUNT && slots[..][k].key == p;
        assert slots[..][k].state;
      }
    }

    // ---- hiding keys ----

    /** Keeps a held key out of keyboard reports until it is released. */
    method HideKey(code: Byte)
      requires Valid() && 0 < layerSize <= NO_KEY
      modifies slots
      ensures Valid() && forall k :: 0 <= k < SLOT_COUNT ==>
                slots[k] == if old(slots[k]).key as int == code % layerSize
                    then old(slots[k]).(hidden := true) else old(slots[k])
    {
      hide Reported, On, ReportedCount, Reportable;
      ghost var before := slots[..];
      var p: Byte := code % layerSize;
      var i := 0;
      while i < SLOT_COUNT && slots[i].key != p
        invariant 0 <= i <= SLOT_COUNT && slots[..] == before
        invariant forall k :: 0 <= k < i ==> slots[k].key != p
      {
        i := i + 1;
      }
      if i < SLOT_COUNT {
        slots[i] := slots[i].(hidden := true);
        assert slots[..] == before[i := before[i].(hidden := true)];
        HiddenReported(events, before, i, layer, defs, layerSize);
        HiddenCount(before, i, SLOT_COUNT, Here());
      }
    }

    method IsKeyHidden(code: Byte) returns (hidden: bool)
      requires Valid() && 0 < layerSize <= NO_KEY
      ensures hidden <==> forall k :: 0 <= k < SLOT_COUNT && slots[k].key as int == code % layerSize ==> slots[k].hidden
    {
      hide Reported, On, ReportedCount, Reportable;
      var p: Byte := code % layerSize;
      var i := 0;
      while i < SLOT_COUNT
        invariant 0 <= i <= SLOT_COUNT && forall k :: 0 <= k < i ==> slots[k].key != p
      {
        if slots[i].key == p {
          OnlySlot(slots[..], i);
          return slots[i].hidden;
        }
        i := i + 1;
      }
      hidden := true;
    }
  }

  lemma PrefixOf(a: seq<Event>, b: seq<Event>, c: seq<Event>)
    requires a <= b <= c
    ensures a <= c
  {
  }

  lemma OnlySlot(slots: seq<Slot>, i: nat)
    requires DistinctSlots(slots) && i < |slots| && slots[i].key != NO_KEY
    ensures forall k :: 0 <= k < |slots| && slots[k].key == slots[i].key ==> k == i
  {
  }

  /** The slots whose key is down for listeners. */
  ghost function DownSlots(slots: seq<Slot>, n: nat, c: Context): set<nat>
    requires n <= |slots|
  {
    set k: nat | k < n && slots[k].key != NO_KEY && Reportable(c, slots[k].key)
  }

  lemma {:induction false} CountIsSize(slots: seq<Slot>, n: nat, c: Context)
    requires n <= |slots|
    ensures ReportedCount(slots, n, c) == |DownSlots(slots, n, c)|
  {
    if n > 0 {
      CountIsSize(slots, n - 1, c);
      var k := n - 1;
      assert DownSlots(slots, n, c)
          == DownSlots(slots, k, c) + if slots[k].key != NO_KEY && Reportable(c, slots[k].key) then {k} else {};
    }
  }

  lemma HiddenReported(es: seq<Event>, slots: seq<Slot>, i: nat, l: Layer, defs: seq<Byte>, layerSize: nat)
    requires Reported(es, slots, l, defs, layerSize) && i < |slots|
    ensures Reported(es, slots[i := slots[i].(hidden := true)], l, defs, layerSize)
  {
    hide Alternates, HeldAs, Code;
    var now := slots[i := slots[i].(hidden := true)];
    forall p: Byte | !Tracks(now, p)
      ensures !Tracks(slots, p)
    {
      if Tracks(slots, p) { TrackedHidden(slots, i, p); }
    }
  }

  lemma TrackedHidden(slots: seq<Slot>, i: nat, p: Byte)
    requires i < |slots| && Tracks(slots, p)
    ensures Tracks(slots[i := slots[i].(hidden := true)], p)
  {
    var k :| 0 <= k < |slots| && slots[k].key == p;
    assert slots[i := slots[i].(hidden := true)][k].key == p;
  }

  lemma {:induction false} HiddenCount(slots: seq<Slot>, i: nat, n: nat, c: Context)
    requires i < |slots| && n <= |slots|
    ensures ReportedCount(slots[i := slots[i].(hidden := true)], n, c) == ReportedCount(slots, n, c)
  {
    if n > 0 { HiddenCount(slots, i, n - 1, c); }
  }

  /** Facts about the slots in the middle of a scan that the steps after it use one by one. */
  lemma ScannedSlots(before: seq<Slot>, mid: seq<Slot>, history: seq<Scan>, n: nat)
    requires Scanned(mid, history, n) && Grown(before, mid)
    ensures |mid| == |before| == SLOT_COUNT && DistinctSlots(mid)
    ensures forall k :: 0 <= k < |mid| ==> mid[k] == EMPTY || (mid[k].key != NO_KEY && (mid[k].prev || mid[k].state))
  {
  }

  lemma BelowMore(slots: seq<Slot>, n: nat, m: nat)
    requires AllBelow(slots, n) && n <= m
    ensures AllBelow(slots, m)
  {
  }

  lemma FreedSlots(before: seq<Slot>, mid: seq<Slot>, now: seq<Slot>)
    requires |mid| == |before| == SLOT_COUNT && Grown(before, mid) && FinishedBelow(mid, now, SLOT_COUNT)
    requires forall k :: 0 <= k < |mid| ==> mid[k] == EMPTY || (mid[k].key != NO_KEY && (mid[k].prev || mid[k].state))
    ensures |now| == SLOT_COUNT
    ensures forall k :: 0 <= k < SLOT_COUNT && mid[k].key != NO_KEY ==> before[k].key != NO_KEY || now[k].key != NO_KEY
  {
  }

  /** The count does not depend on the layers. */
  lemma {:induction false} SameCount(slots: seq<Slot>, n: nat, a: Context, b: Context)
    requires n <= |slots| && a.defs == b.defs
    ensures ReportedCount(slots, n, a) == ReportedCount(slots, n, b)
  {
    if n > 0 { SameCount(slots, n - 1, a, b); }
  }

  lemma NothingFinished(mid: seq<Slot>, c: Context)
    ensures FinishedBelow(mid, mid, 0) && EventsBelow(mid, 0, c) == []
  {
  }

  lemma SlotFinished(mid: seq<Slot>, now: seq<Slot>, j: nat, before: seq<Event>, es: seq<Event>, c: Context)
    requires j < |mid| && FinishedBelow(mid, now, j) && es == before + EventsBelow(mid, j, c)
    ensures |now| == |mid| && now[j] == mid[j] && FinishedBelow(mid, now[j := Finished(mid[j])], j + 1)
    ensures es + Events(mid[j], c) == before + EventsBelow(mid, j + 1, c)
  {
  }

  lemma ChangeIs(c: Context)
    ensures LayerChange(c) <==> LayerId(c.now) != LayerId(c.was)
  {
  }

  /** A slot listeners hear nothing of. */
  lemma QuietSlot(es: seq<Event>, s: Slot, c: Context)
    requires s.key == NO_KEY || !Reportable(c, s.key) || (!LayerChange(c) && s.prev == s.state)
    ensures Events(s, c) == [] && es + Events(s, c) == es
    ensures Expected(s, true, c).Down? <==> Expected(s, false, c).Down?
  {
  }

  lemma {:induction false} NoneReported(slots: seq<Slot>, n: nat, c: Context)
    requires n <= |slots| && forall k :: 0 <= k < |slots| ==> slots[k] == EMPTY
    ensures ReportedCount(slots, n, c) == 0
  {
    if n > 0 { NoneReported(slots, n - 1, c); }
  }
}
