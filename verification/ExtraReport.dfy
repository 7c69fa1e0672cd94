/**
 * The six-key side report that programs and macro playback fill (extrareport.c), and its
 * merging into the USB keyboard report (Appendix B.1 of the USB HID 1.11 class definition:
 * one modifier byte, six key codes, unused codes zero).
 */
module ExtraReport {
  import opened Bytes

  const SLOTS: nat := 6
  const LEFT_CONTROL: Byte := 0xE0      // first of the eight modifier codes

  // ---- modifier bits ----

  function Mask(i: nat): bv8 {
    if i == 0 then 1 else if i == 1 then 2 else if i == 2 then 4 else if i == 3 then 8
    else if i == 4 then 16 else if i == 5 then 32 else if i == 6 then 64 else if i == 7 then 128
    else 0      // 1 << i leaves no bit in a byte
  }

  predicate Bit(m: bv8, i: nat) { m & Mask(i) != 0 }

  function WithBit(m: bv8, i: nat): bv8 { m | Mask(i) }

  function WithoutBit(m: bv8, i: nat): bv8 { m & !Mask(i) }

  function FlippedBit(m: bv8, i: nat): bv8 { m ^ Mask(i) }

  lemma Masks(i: nat, j: nat)
    requires j < 8
    ensures Mask(j) != 0 && Mask(j) & (Mask(j) - 1) == 0 && (i != j ==> Mask(i) & Mask(j) == 0)
  {
  }

  /** Changing the bits of one mask does not change the bits of another. */
  lemma OtherBits(m: bv8, a: bv8, b: bv8)
    requires a & b == 0
    ensures (m | a) & b == m & b && (m & !a) & b == m & b && (m ^ a) & b == m & b
  {
  }

  lemma OwnBit(m: bv8, b: bv8)
    requires b != 0 && b & (b - 1) == 0
    ensures (m | b) & b != 0 && (m & !b) & b == 0 && ((m ^ b) & b != 0 <==> m & b == 0)
  {
  }

  lemma BitsOf(m: bv8, i: nat, j: nat)
    requires j < 8
    ensures Bit(WithBit(m, i), j) <==> Bit(m, j) || i == j
    ensures Bit(WithoutBit(m, i), j) <==> Bit(m, j) && i != j
    ensures Bit(FlippedBit(m, i), j) <==> Bit(m, j) != (i == j)
  {
    hide Mask;
    Masks(i, j);
    if i == j { OwnBit(m, Mask(j)); } else { OtherBits(m, Mask(i), Mask(j)); }
  }

  lemma NoBits(j: nat)
    ensures !Bit(0, j)
  {
  }

  // ---- what a side report holds down ----

  predicate IsModifier(key: Byte) { LEFT_CONTROL <= key < LEFT_CONTROL + 8 }

  /** Keys held down: occupied slots and set modifier bits. */
  ghost predicate Holds(modifiers: bv8, keys: seq<Byte>, key: Byte) {
    if key >= LEFT_CONTROL then IsModifier(key) && Bit(modifiers, key - LEFT_CONTROL) else key in keys
  }

  /** Occupied slots hold different ordinary keys. */
  ghost predicate DistinctKeys(keys: seq<Byte>) {
    && (forall i, j :: 0 <= i < j < |keys| && keys[i] == keys[j] ==> keys[i] == NO_KEY)
    && (forall i :: 0 <= i < |keys| ==> keys[i] < LEFT_CONTROL || keys[i] == NO_KEY)
  }

  /** The first place of a key, or |keys|. */
  function IndexOf(keys: seq<Byte>, key: Byte, i: nat := 0): (r: nat)
    requires i <= |keys|
    ensures i <= r <= |keys| && (r < |keys| ==> keys[r] == key)
    ensures forall k :: i <= k < r ==> keys[k] != key
    decreases |keys| - i
  {
    if i == |keys| || keys[i] == key then i else IndexOf(keys, key, i + 1)
  }

  /** The lowest free slot takes the key; without one the key is dropped. */
  function Added(keys: seq<Byte>, key: Byte): seq<Byte> {
    var free := IndexOf(keys, NO_KEY);
    if key in keys || free == |keys| then keys else keys[free := key]
  }

  function Removed(keys: seq<Byte>, key: Byte): seq<Byte> {
    var i := IndexOf(keys, key);
    if i == |keys| then keys else keys[i := NO_KEY]
  }

  function ToggledKeys(keys: seq<Byte>, key: Byte): seq<Byte> {
    if key in keys then Removed(keys, key) else Added(keys, key)
  }

  /** A side report as a value. */
  datatype Side = Side(modifiers: bv8, keys: seq<Byte>)

  function Pressed(s: Side, key: Byte): Side {
    if key >= LEFT_CONTROL then s.(modifiers := WithBit(s.modifiers, key - LEFT_CONTROL))
        else s.(keys := Added(s.keys, key))
  }

  function Released(s: Side, key: Byte): Side {
    if key >= LEFT_CONTROL then s.(modifiers := WithoutBit(s.modifiers, key - LEFT_CONTROL))
    else s.(keys := Removed(s.keys, key))
  }

  function Toggled(s: Side, key: Byte): Side {
    if key >= LEFT_CONTROL then s.(modifiers := FlippedBit(s.modifiers, key - LEFT_CONTROL))
    else s.(keys := ToggledKeys(s.keys, key))
  }

  const NO_KEYS: Side := Side(0, [NO_KEY, NO_KEY, NO_KEY, NO_KEY, NO_KEY, NO_KEY])

  lemma AddedHolds(keys: seq<Byte>, key: Byte)
    requires DistinctKeys(keys) && key < LEFT_CONTROL
    ensures DistinctKeys(Added(keys, key))
    ensures key in Added(keys, key) <==> key in keys || NO_KEY in keys
    ensures forall k: Byte :: k != key && k != NO_KEY ==> (k in Added(keys, key) <==> k in keys)
  {
    var free := IndexOf(keys, NO_KEY);
    if key !in keys && free < |keys| { SlotTaken(keys, free, key); }
  }

  lemma RemovedHolds(keys: seq<Byte>, key: Byte)
    requires DistinctKeys(keys) && key != NO_KEY
    ensures DistinctKeys(Removed(keys, key)) && key !in Removed(keys, key)
    ensures forall k: Byte :: k != key && k != NO_KEY ==> (k in Removed(keys, key) <==> k in keys)
  {
    var i := IndexOf(keys, key);
    if i < |keys| { SlotFreed(keys, i, key); }
  }

  ghost predicate HoldsIn(s: Side, key: Byte) { Holds(s.modifiers, s.keys, key) }

  /** A key that a report can take. */
  ghost predicate CanHold(s: Side, key: Byte) {
    IsModifier(key) || (key < LEFT_CONTROL && NO_KEY in s.keys)
  }

  /** What changing a report's state for one key does to every key k. */
  lemma BitChanged(s: Side, key: Byte, k: Byte)
    requires key >= LEFT_CONTROL
    ensures k != key ==> (HoldsIn(Pressed(s, key), k) <==> HoldsIn(s, k))
                         && (HoldsIn(Released(s, key), k) <==> HoldsIn(s, k))
                         && (HoldsIn(Toggled(s, key), k) <==> HoldsIn(s, k))
    ensures HoldsIn(Pressed(s, key), key) <==> HoldsIn(s, key) || CanHold(s, key)
    ensures !HoldsIn(Released(s, key), key)
    ensures HoldsIn(Toggled(s, key), key) <==> !HoldsIn(s, key) && CanHold(s, key)
  {
    hide Bit, WithBit, WithoutBit, FlippedBit;
    if IsModifier(k) { BitsOf(s.modifiers, key - LEFT_CONTROL, k - LEFT_CONTROL); }
    if IsModifier(key) { BitsOf(s.modifiers, key - LEFT_CONTROL, key - LEFT_CONTROL); }
  }

  lemma SlotChanged(s: Side, key: Byte, k: Byte)
    requires key < LEFT_CONTROL && DistinctKeys(s.keys)
    ensures k != key ==> (HoldsIn(Pressed(s, key), k) <==> HoldsIn(s, k))
                         && (HoldsIn(Released(s, key), k) <==> HoldsIn(s, k))
                         && (HoldsIn(Toggled(s, key), k) <==> HoldsIn(s, k))
    ensures HoldsIn(Pressed(s, key), key) <==> HoldsIn(s, key) || CanHold(s, key)
    ensures !HoldsIn(Released(s, key), key)
    ensures HoldsIn(Toggled(s, key), key) <==> !HoldsIn(s, key) && CanHold(s, key)
  {
    hide Added, Removed, Bit, DistinctKeys;
    AddedHolds(s.keys, key);
    RemovedHolds(s.keys, key);
  }

  lemma Changed(s: Side, key: Byte, k: Byte)
    requires DistinctKeys(s.keys)
    ensures k != key ==> (HoldsIn(Pressed(s, key), k) <==> HoldsIn(s, k))
                         && (HoldsIn(Released(s, key), k) <==> HoldsIn(s, k))
                         && (HoldsIn(Toggled(s, key), k) <==> HoldsIn(s, k))
    ensures HoldsIn(Pressed(s, key), key) <==> HoldsIn(s, key) || CanHold(s, key)
    ensures !HoldsIn(Released(s, key), key)
    ensures HoldsIn(Toggled(s, key), key) <==> !HoldsIn(s, key) && CanHold(s, key)
  {
    hide Pressed, Released, Toggled, HoldsIn, CanHold, DistinctKeys;
    if key >= LEFT_CONTROL { BitChanged(s, key, k); } else { SlotChanged(s, key, k); }
  }

  lemma StaysDistinct(s: Side, key: Byte)
    requires DistinctKeys(s.keys)
    ensures DistinctKeys(Pressed(s, key).keys) && DistinctKeys(Released(s, key).keys)
    ensures DistinctKeys(Toggled(s, key).keys) && |Toggled(s, key).keys| == |s.keys|
  {
    hide DistinctKeys;
    if key < LEFT_CONTROL {
      AddedHolds(s.keys, key);
      RemovedHolds(s.keys, key);
    }
  }

  /** Apart from one key, two reports hold the same. */
  ghost predicate SameBut(s: Side, t: Side, key: Byte) {
    forall k: Byte :: k != key ==> (HoldsIn(t, k) <==> HoldsIn(s, k))
  }

  /** Pressing, releasing and toggling change the one key, and only that. */
  lemma OneKeyChanges(s: Side, key: Byte)
    requires DistinctKeys(s.keys)
    ensures SameBut(s, Pressed(s, key), key) && SameBut(s, Released(s, key), key) && SameBut(s, Toggled(s, key), key)
    ensures HoldsIn(Pressed(s, key), key) <==> HoldsIn(s, key) || CanHold(s, key)
    ensures !HoldsIn(Released(s, key), key)
    ensures HoldsIn(Toggled(s, key), key) <==> !HoldsIn(s, key) && CanHold(s, key)
  {
    hide Pressed, Released, Toggled, HoldsIn, CanHold, DistinctKeys;
    Changed(s, key, key);
    forall k: Byte | k != key
      ensures HoldsIn(Pressed(s, key), k) <==> HoldsIn(s, k)
      ensures HoldsIn(Released(s, key), k) <==> HoldsIn(s, k)
      ensures HoldsIn(Toggled(s, key), k) <==> HoldsIn(s, k)
    {
      Changed(s, key, k);
    }
  }

  lemma NothingHeld()
    ensures DistinctKeys(NO_KEYS.keys) && forall k: Byte :: !HoldsIn(NO_KEYS, k)
  {
    forall k: Byte
      ensures !HoldsIn(NO_KEYS, k)
    {
      NoBits(if k >= LEFT_CONTROL then k - LEFT_CONTROL else 0);
    }
  }

  class ExtraKeyboardReport {
    var modifiers: bv8
    const keys: array<Byte>

    ghost predicate Valid()
      reads this, keys
    {
      keys.Length == SLOTS && DistinctKeys(keys[..])
    }

    ghost function View(): Side
      reads this, keys
    {
      Side(modifiers, keys[..])
    }

    constructor ()
      ensures Valid() && fresh(keys) && View() == NO_KEYS && forall k: Byte :: !HoldsIn(View(), k)
    {
      modifiers := 0;
      keys := new Byte[SLOTS](_ => NO_KEY);
      new;
      NothingHeld();
    }

    method Clear()
      requires Valid()
      modifies this`modifiers, keys
      ensures Valid() && View() == NO_KEYS && forall k: Byte :: !HoldsIn(View(), k)
    {
      modifiers := 0;
      forall i | 0 <= i < keys.Length {
        keys[i] := NO_KEY;
      }
      NothingHeld();
    }

    method AddKey(key: Byte)
      requires keys.Length == SLOTS && key < LEFT_CONTROL
      modifies keys
      ensures keys[..] == Added(old(keys[..]), key)
    {
      ghost var was := keys[..];
      var free := SLOTS;
      var i := SLOTS - 1;
      while i >= 0
        invariant -1 <= i < SLOTS && keys[..] == was && i < free <= SLOTS
        invariant forall k :: i < k < SLOTS ==> keys[k] != key
        invariant free < SLOTS ==> keys[free] == NO_KEY
        invariant forall k :: i < k < free ==> keys[k] != NO_KEY
      {
        if keys[i] == key {
          return;
        } else if keys[i] == NO_KEY {
          free := i;
        }
        i := i - 1;
      }
      if free < SLOTS {
        keys[free] := key;
        assert keys[..] == was[free := key];
      }
    }

    method RemoveKey(key: Byte)
      requires keys.Length == SLOTS && key < LEFT_CONTROL
      modifies keys
      ensures keys[..] == Removed(old(keys[..]), key)
    {
      ghost var was := keys[..];
      var i := 0;
      while i < SLOTS
        invariant 0 <= i <= SLOTS && keys[..] == was
        invariant forall k :: 0 <= k < i ==> keys[k] != key
      {
        if keys[i] == key {
          keys[i] := NO_KEY;
          assert keys[..] == was[i := NO_KEY];
          return;
        }
        i := i + 1;
      }
    }

    method ToggleKey(key: Byte)
      requires Valid() && key < LEFT_CONTROL
      modifies keys
      ensures keys[..] == ToggledKeys(old(keys[..]), key)
    {
      ghost var was := keys[..];
      var free := SLOTS;
      var i := SLOTS - 1;
      while i >= 0
        invariant -1 <= i < SLOTS && keys[..] == was && i < free <= SLOTS
        invariant forall k :: i < k < SLOTS ==> keys[k] != key
        invariant free < SLOTS ==> keys[free] == NO_KEY
        invariant forall k :: i < k < free ==> keys[k] != NO_KEY
      {
        if keys[i] == key {
          OnlyPlace(was, key, i);
          keys[i] := NO_KEY;
          assert keys[..] == was[i := NO_KEY];
          return;
        } else if keys[i] == NO_KEY {
          free := i;
        }
        i := i - 1;
      }
      if free < SLOTS {
        keys[free] := key;
        assert keys[..] == was[free := key];
      }
    }

    /** Presses a key; a seventh ordinary key is dropped. */
    method Add(key: Byte)
      requires Valid()
      modifies this`modifiers, keys
      ensures Valid() && View() == Pressed(old(View()), key) && SameBut(old(View()), View(), key)
      ensures HoldsIn(View(), key) <==> HoldsIn(old(View()), key) || CanHold(old(View()), key)
    {
      hide DistinctKeys, Added, HoldsIn, CanHold, SameBut, WithBit;
      OneKeyChanges(View(), key);
      StaysDistinct(View(), key);
      if key >= LEFT_CONTROL {
        modifiers := WithBit(modifiers, key - LEFT_CONTROL);
      } else {
        AddKey(key);
      }
    }

    /** Releases a key. */
    method Remove(key: Byte)
      requires Valid()
      modifies this`modifiers, keys
      ensures Valid() && View() == Released(old(View()), key) && SameBut(old(View()), View(), key)
      ensures !HoldsIn(View(), key)
    {
      hide DistinctKeys, Removed, HoldsIn, CanHold, SameBut, WithoutBit;
      OneKeyChanges(View(), key);
      StaysDistinct(View(), key);
      if key >= LEFT_CONTROL {
        modifiers := WithoutBit(modifiers, key - LEFT_CONTROL);
      } else {
        RemoveKey(key);
      }
    }

    /** Presses a released key and releases a pressed one; a seventh ordinary key is dropped. */
    method Toggle(key: Byte)
      requires Valid()
      modifies this`modifiers, keys
      ensures Valid() && View() == Toggled(old(View()), key) && SameBut(old(View()), View(), key)
      ensures HoldsIn(View(), key) <==> !HoldsIn(old(View()), key) && CanHold(old(View()), key)
    {
      hide DistinctKeys, ToggledKeys, HoldsIn, CanHold, SameBut, FlippedBit;
      OneKeyChanges(View(), key);
      StaysDistinct(View(), key);
      if key >= LEFT_CONTROL {
        modifiers := FlippedBit(modifiers, key - LEFT_CONTROL);
      } else {
        ToggleKey(key);
      }
    }
  }

  lemma OnlyPlace(keys: seq<Byte>, key: Byte, i: nat)
    requires DistinctKeys(keys) && i < |keys| && keys[i] == key != NO_KEY
    ensures IndexOf(keys, key) == i
  {
  }

  lemma SlotTaken(keys: seq<Byte>, i: nat, key: Byte)
    requires DistinctKeys(keys) && i < |keys| && keys[i] == NO_KEY && key !in keys && key < LEFT_CONTROL
    ensures DistinctKeys(keys[i := key]) && key in keys[i := key]
    ensures forall k: Byte :: k != key && k != NO_KEY ==> (k in keys[i := key] <==> k in keys)
  {
    var now := keys[i := key];
    assert now[i] == key;
    forall k: Byte | k != key && k != NO_KEY && k in keys
      ensures k in now
    {
      var j :| 0 <= j < |keys| && keys[j] == k;
      assert now[j] == k;
    }
  }

  lemma SlotFreed(keys: seq<Byte>, i: nat, key: Byte)
    requires DistinctKeys(keys) && i < |keys| && keys[i] == key != NO_KEY
    ensures DistinctKeys(keys[i := NO_KEY]) && key !in keys[i := NO_KEY]
    ensures forall k: Byte :: k != key && k != NO_KEY ==> (k in keys[i := NO_KEY] <==> k in keys)
  {
    var now := keys[i := NO_KEY];
    forall k: Byte | k != key && k != NO_KEY && k in keys
      ensures k in now
    {
      var j :| 0 <= j < |keys| && keys[j] == k;
      assert now[j] == k;
    }
  }

  // ---- merging into the USB report ----

  /** The keys among the first n that must be added: occupied slots whose key is not among those taken. */
  function NewKeys(keys: seq<Byte>, taken: seq<Byte>, n: nat): (r: seq<Byte>)
    requires n <= |keys|
    ensures |r| <= n
  {
    if n == 0 then []
    else
      var r := NewKeys(keys, taken, n - 1);
      if keys[n - 1] == NO_KEY || keys[n - 1] in taken then r else r + [keys[n - 1]]
  }

  /** Key codes in use: the codes before the first zero. */
  function UsedCodes(codes: seq<Byte>): nat { IndexOf(codes, 0) }

  function Written(codes: seq<Byte>, keys: seq<Byte>): (r: seq<Byte>)
    ensures UsedCodes(codes) + |r| <= |codes|
  {
    var used := UsedCodes(codes);
    var more := NewKeys(keys, codes[..used], |keys|);
    if |more| <= |codes| - used then more else more[..|codes| - used]
  }

  /** The new keys follow the codes already in use, as far as there is room. */
  function Appended(codes: seq<Byte>, keys: seq<Byte>): (r: seq<Byte>)
    ensures |r| == |codes|
  {
    Merged(codes, Written(codes, keys))
  }

  /** The codes in use, then w, then the rest. */
  function Merged(codes: seq<Byte>, w: seq<Byte>): (r: seq<Byte>)
    requires UsedCodes(codes) + |w| <= |codes|
    ensures |r| == |codes|
    ensures forall i :: 0 <= i < |r| ==>
              r[i] == if UsedCodes(codes) <= i < UsedCodes(codes) + |w| then w[i - UsedCodes(codes)] else codes[i]
  {
    codes[..UsedCodes(codes)] + w + codes[UsedCodes(codes) + |w|..]
  }

  lemma MergeOneMore(codes: seq<Byte>, w: seq<Byte>, key: Byte, next: nat)
    requires UsedCodes(codes) + |w| == next < |codes|
    ensures Merged(codes, w)[next := key] == Merged(codes, w + [key])
  {
  }

  lemma MergeKeepsUsed(codes: seq<Byte>, w: seq<Byte>)
    requires UsedCodes(codes) + |w| <= |codes|
    ensures Merged(codes, w)[..UsedCodes(codes)] == codes[..UsedCodes(codes)]
  {
  }

  lemma MergeNone(codes: seq<Byte>)
    ensures Merged(codes, []) == codes
  {
  }

  class KeyboardReport {
    var modifier: bv8
    const codes: array<Byte>

    constructor ()
      ensures codes.Length == SLOTS && fresh(codes) && modifier == 0 && forall i :: 0 <= i < SLOTS ==> codes[i] == 0
    {
      modifier := 0;
      codes := new Byte[SLOTS](_ => 0);
    }

    method Append(extra: ExtraKeyboardReport)
      requires codes.Length == SLOTS && extra.keys.Length == SLOTS && codes != extra.keys
      modifies this`modifier, codes
      ensures modifier == old(modifier) | extra.modifiers
      ensures codes[..] == Appended(old(codes[..]), extra.keys[..])
    {
      modifier := modifier | extra.modifiers;
      AppendKeys(extra.keys);
    }

    /** One key of the side report; next is the first unused code. */
    method AppendKey(key: Byte, start: nat, next: nat, ghost was: seq<Byte>, ghost w: seq<Byte>) returns (now: nat)
      requires |was| == codes.Length && start == UsedCodes(was) && start + |w| == next < |was|
      requires codes[..] == Merged(was, w)
      modifies codes
      ensures key != NO_KEY && key !in was[..start] ==> now == next + 1 && codes[..] == Merged(was, w + [key])
      ensures key == NO_KEY || key in was[..start] ==> now == next && codes[..] == Merged(was, w)
    {
      hide Merged;
      MergeKeepsUsed(was, w);
      var present := AmongFirst(key, start);
      now := next;
      if key != NO_KEY && !present {
        MergeOneMore(was, w, key, next);
        codes[next] := key;
        assert codes[..] == Merged(was, w)[next := key];
        now := next + 1;
      }
    }

    method AppendKeys(from: array<Byte>)
      requires codes.Length == SLOTS && from.Length == SLOTS && codes != from
      modifies codes
      ensures codes[..] == Appended(old(codes[..]), from[..])
    {
      hide Written, Appended, Merged;
      ghost var was := codes[..];
      var start := CountUsed();
      ghost var w: seq<Byte> := [];
      MergeNone(was);
      var next, k := start, 0;
      while next < SLOTS && k < SLOTS
        invariant 0 <= k <= SLOTS && start <= next <= SLOTS && |w| == next - start
        invariant w == NewKeys(from[..], was[..start], k) && codes[..] == Merged(was, w)
      {
        var key := from[k];
        next := AppendKey(key, start, next, was, w);
        w := NewKeys(from[..], was[..start], k + 1);
        k := k + 1;
      }
      AppendedIs(was, from[..], k, next);
    }

    method CountUsed() returns (n: nat)
      ensures n == UsedCodes(codes[..])
    {
      n := 0;
      while n < codes.Length && codes[n] != 0
        invariant 0 <= n <= codes.Length && forall i :: 0 <= i < n ==> codes[i] != 0
      {
        n := n + 1;
      }
    }

    method AmongFirst(key: Byte, n: nat) returns (present: bool)
      requires n <= codes.Length
      ensures present <==> key in codes[..n]
    {
      var j := 0;
      while j < n
        invariant 0 <= j <= n && forall i :: 0 <= i < j ==> codes[i] != key
      {
        if codes[j] == key {
          return true;
        }
        j := j + 1;
      }
      return false;
    }
  }

  /** Looking at more keys only adds to the list. */
  lemma {:induction false} NewKeysGrow(keys: seq<Byte>, taken: seq<Byte>, k: nat, n: nat)
    requires k <= n <= |keys|
    ensures NewKeys(keys, taken, k) <= NewKeys(keys, taken, n)
    decreases n
  {
    if k < n { NewKeysGrow(keys, taken, k, n - 1); }
  }

  /** The merge stops when all keys were looked at or all codes are in use. */
  lemma AppendedIs(codes: seq<Byte>, keys: seq<Byte>, k: nat, next: nat)
    requires k <= |keys| && UsedCodes(codes) <= next <= |codes| && (k == |keys| || next == |codes|)
    requires |NewKeys(keys, codes[..UsedCodes(codes)], k)| == next - UsedCodes(codes)
    ensures Appended(codes, keys) == Merged(codes, NewKeys(keys, codes[..UsedCodes(codes)], k))
  {
    var used := UsedCodes(codes);
    NewKeysGrow(keys, codes[..used], k, |keys|);
    assert Written(codes, keys) == NewKeys(keys, codes[..used], k);
  }

  // ---- what merging guarantees ----

  ghost predicate Gapless(codes: seq<Byte>) {
    forall i, j :: 0 <= i < j < |codes| && codes[i] == 0 ==> codes[j] == 0
  }

  ghost predicate NoRepeats(codes: seq<Byte>) {
    forall i, j :: 0 <= i < j < |codes| && codes[i] == codes[j] ==> codes[i] == 0
  }

  predicate Full(codes: seq<Byte>) { UsedCodes(codes) == |codes| }

  /** The new keys are exactly those not yet taken, once each. */
  lemma {:induction false} NewKeysAre(keys: seq<Byte>, taken: seq<Byte>, n: nat)
    requires n <= |keys| && DistinctKeys(keys)
    ensures var r := NewKeys(keys, taken, n);
            (forall x: Byte :: x in r <==> x in keys[..n] && x != NO_KEY && x !in taken)
            && forall i, j :: 0 <= i < j < |r| ==> r[i] != r[j]
  {
    if n > 0 {
      NewKeysAre(keys, taken, n - 1);
      assert keys[..n] == keys[..n - 1] + [keys[n - 1]];
      if keys[n - 1] != NO_KEY {
        forall i | 0 <= i < n - 1 ensures keys[i] != keys[n - 1] { }
      }
    }
  }

  /** When merging keeps a gapless report gapless: no zero among the written keys precedes another key. */
  lemma GaplessIff(codes: seq<Byte>, keys: seq<Byte>)
    requires Gapless(codes)
    ensures Gapless(Appended(codes, keys)) <==> Gapless(Written(codes, keys))
  {
    var used, w, r := UsedCodes(codes), Written(codes, keys), Appended(codes, keys);
    assert forall i :: used <= i < |codes| ==> codes[i] == 0;
    assert forall i :: 0 <= i < |w| ==> r[used + i] == w[i];
    if Gapless(r) {
      forall i, j | 0 <= i < j < |w| && w[i] == 0
        ensures w[j] == 0
      {
        assert r[used + i] == 0;
        assert r[used + j] == 0;
      }
    }
  }

  /** A report merged with keys other than zero: what was there stays in front, the rest is added. */
  lemma MergeKeys(codes: seq<Byte>, keys: seq<Byte>)
    requires Gapless(codes) && NoRepeats(codes) && DistinctKeys(keys) && 0 !in keys
    ensures var r := Appended(codes, keys);
            && codes[..UsedCodes(codes)] <= r && UsedCodes(codes) <= UsedCodes(r)
            && Gapless(r) && NoRepeats(r)
            && (forall x: Byte :: x in r && x != 0 ==> x in codes || (x in keys && x != NO_KEY))
            && (forall x: Byte :: x in keys && x != NO_KEY ==> x in r || Full(r))
  {
    var used, r := UsedCodes(codes), Appended(codes, keys);
    var all := NewKeys(keys, codes[..used], |keys|);
    var w := Written(codes, keys);
    NewKeysAre(keys, codes[..used], |keys|);
    assert keys[..|keys|] == keys;
    MergeLayout(codes, w, r);
  }

  lemma MergeLayout(codes: seq<Byte>, w: seq<Byte>, r: seq<Byte>)
    requires Gapless(codes) && NoRepeats(codes) && UsedCodes(codes) + |w| <= |codes|
    requires r == Merged(codes, w)
    requires 0 !in w && (forall x: Byte :: x in w ==> x !in codes[..UsedCodes(codes)])
    requires forall i, j :: 0 <= i < j < |w| ==> w[i] != w[j]
    ensures UsedCodes(r) == UsedCodes(codes) + |w| && Gapless(r) && NoRepeats(r)
    ensures forall x: Byte :: x in r && x != 0 <==> x in codes[..UsedCodes(codes)] || x in w
  {
    var used := UsedCodes(codes);
    assert forall i :: 0 <= i < used ==> r[i] == codes[i] && codes[i] in codes[..used] && r[i] != 0;
    assert forall i :: used <= i < used + |w| ==> r[i] == w[i - used] && r[i] in w && r[i] != 0;
    assert forall i :: used <= i < |codes| ==> codes[i] == 0;
    assert forall i :: used + |w| <= i < |r| ==> r[i] == 0;
    assert UsedCodes(r) == used + |w| by {
      assert forall i :: 0 <= i < used + |w| ==> r[i] != 0;
      if used + |w| < |r| { assert r[used + |w|] == 0; }
    }
  }
}
