/**
 * What the keyboard tells its listeners about one key after another (keystate.c): press and
 * release events with logical key codes, which depend on the layer in force.
 */
module KeyEvents {
  import opened Bytes

  const SLOT_COUNT: nat := 14
  const LAYER_LOCK: Byte := 0xFA
  const KEYPAD_SHIFT: Byte := 0xFB
  const FUNCTION_SHIFT: Byte := 0xFC
  const MACRO_SHIFT: Byte := 0xFD
  const PROGRAM: Byte := 0xFE

  /** Special keys that cannot be remapped. */
  predicate NoRemap(h: Byte) { h >= LAYER_LOCK && h != NO_KEY }

  /** Layer keys are not reported. */
  predicate Notifiable(h: Byte) { h < LAYER_LOCK || h >= MACRO_SHIFT }

  // ---- layers ----

  datatype Layer = Layer(base: bool, lock: bool, id: nat)

  function LayerId(l: Layer): nat { if l.base then 0xFF else l.id }

  /** Pressing or releasing a layer key. */
  function Shifted(l: Layer, h: Byte, pressed: bool): Layer {
    if h == LAYER_LOCK then
      if !pressed then l
      else if l.lock then l.(lock := false, id := 0)
      else if l.id == 0 then l.(lock := true, id := 1)
      else l.(lock := true)
    else if h == KEYPAD_SHIFT || h == FUNCTION_SHIFT then
      if pressed then l.(id := if h == KEYPAD_SHIFT then 1 else 2)
      else if !l.lock then l.(id := 0)
      else l
    else if h == MACRO_SHIFT || h == PROGRAM then l.(base := pressed)
    else l
  }

  /**
   * Letting go of a shift key leads back to the base layer, unless the layer is locked; locking
   * and unlocking does too.
   */
  lemma LayerKeysReturn(l: Layer, shift: Byte)
    requires shift == KEYPAD_SHIFT || shift == FUNCTION_SHIFT
    ensures var held := Shifted(l, shift, true);
            && held.id == (if shift == KEYPAD_SHIFT then 1 else 2)
            && Shifted(held, shift, false).id == if l.lock then held.id else 0
    ensures !l.lock ==>
              var locked := Shifted(l, LAYER_LOCK, true);
              && locked.lock && locked.id == (if l.id == 0 then 1 else l.id)
              && Shifted(Shifted(locked, LAYER_LOCK, false), LAYER_LOCK, true) == l.(id := 0)
  {
  }

  /** The logical code of a key; the base layer is used while macro or program keys are held. */
  function Code(l: Layer, p: Byte, layerSize: nat): Byte {
    Wrap8(p + (if l.base then 0 else l.id) * layerSize)
  }

  lemma SameLayerSameCode(a: Layer, b: Layer, p: Byte, layerSize: nat)
    requires LayerId(a) == LayerId(b) && a.id < 0xFF && b.id < 0xFF
    ensures Code(a, p, layerSize) == Code(b, p, layerSize)
  {
  }

  // ---- events ----

  /** An event as listeners see it, and the physical key behind it. */
  datatype Event = Event(key: Byte, code: Byte, press: bool)

  datatype Held = Up | Down(code: Byte)

  /** Whether key p is down after the events, and the code it was last pressed with. */
  function HeldAs(es: seq<Event>, p: Byte): Held {
    if es == [] then Up
    else
      var e := es[|es| - 1];
      if e.key != p then HeldAs(es[..|es| - 1], p) else if e.press then Down(e.code) else Up
  }

  /** Each key's events alternate, and each release carries the code of the press before it. */
  ghost predicate Alternates(es: seq<Event>) {
    es != [] ==>
      var front, e := es[..|es| - 1], es[|es| - 1];
      Alternates(front) && HeldAs(front, e.key) == if e.press then Up else Down(e.code)
  }

  lemma OneMoreEvent(es: seq<Event>, e: Event)
    requires Alternates(es) && HeldAs(es, e.key) == if e.press then Up else Down(e.code)
    ensures Alternates(es + [e])
    ensures forall p :: HeldAs(es + [e], p) == if p == e.key then (if e.press then Down(e.code) else Up)
            else HeldAs(es, p)
  {
    assert (es + [e])[..|es + [e]| - 1] == es;
  }

  /** A key that is down was pressed with that code, and nothing happened to it since. */
  lemma {:induction false} DownSince(es: seq<Event>, p: Byte) returns (j: nat)
    requires HeldAs(es, p).Down?
    ensures j < |es| && es[j] == Event(p, HeldAs(es, p).code, true)
    ensures forall k :: j < k < |es| ==> es[k].key != p
  {
    var n := |es| - 1;
    if es[n].key == p {
      j := n;
    } else {
      j := DownSince(es[..n], p);
    }
  }

  lemma {:induction false} AlternatesPrefix(es: seq<Event>, n: nat)
    requires Alternates(es) && n <= |es|
    ensures Alternates(es[..n])
    decreases |es|
  {
    if n < |es| {
      AlternatesPrefix(es[..|es| - 1], n);
      assert es[..|es| - 1][..n] == es[..n];
    } else {
      assert es[..n] == es;
    }
  }

  /** Every release has its press: the same key and code, with no event of that key in between. */
  lemma ReleaseMatchesPress(es: seq<Event>, i: nat) returns (j: nat)
    requires Alternates(es) && i < |es| && !es[i].press
    ensures j < i && es[j] == Event(es[i].key, es[i].code, true)
    ensures forall k :: j < k < i ==> es[k].key != es[i].key
  {
    AlternatesPrefix(es, i + 1);
    assert es[..i + 1][..i] == es[..i];
    j := DownSince(es[..i], es[i].key);
  }
}
