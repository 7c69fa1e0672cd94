/**
 * Saved layouts as the user sees them: the mapping in force and up to ten remembered ones.
 * The packed store of differences refines this.
 */
module LayoutSession {
  import opened Bytes
  import opened LayoutTheory
  import opened Packing

  type Layout = seq<Byte>

  datatype State = State(current: Layout, saved: map<nat, Layout>)

  datatype Op = Save(num: nat) | Delete(num: nat) | Load(num: nat) | Remap(key: nat, code: Byte) | Reset

  /** The room the layouts of the slots below n take, in records. */
  function RecordsUsed(d: Layout, saved: map<nat, Layout>, n: nat): nat
    requires Fitting(d, saved)
  {
    if n == 0 then 0
    else RecordsUsed(d, saved, n - 1) + if n - 1 in saved then |AllDiffs(d, saved[n - 1])| else 0
  }

  ghost predicate Fitting(d: Layout, saved: map<nat, Layout>) {
    |d| <= 0xFF && forall k :: k in saved ==> k < SLOT_COUNT && |saved[k]| == |d|
  }

  ghost predicate Wellformed(d: Layout, s: State) {
    |s.current| == |d| && Fitting(d, s.saved)
  }

  /** A layout is saved when it differs from the default and its differences fit below the last record. */
  predicate CanSave(d: Layout, s: State, num: nat, capacity: nat)
    requires Wellformed(d, s)
  {
    && num < SLOT_COUNT && s.current != d
    && RecordsUsed(d, s.saved - {num}, SLOT_COUNT) + |AllDiffs(d, s.current)| < capacity
  }

  function Step(d: Layout, s: State, op: Op, capacity: nat): (t: State)
    requires Wellformed(d, s)
    ensures Wellformed(d, t)
  {
    match op
    case Save(num) =>
      if CanSave(d, s, num, capacity) then s.(saved := s.saved[num := s.current]) else s.(saved := s.saved - {num})
    case Delete(num) => s.(saved := s.saved - {num})
    case Load(num) => if num in s.saved then s.(current := s.saved[num]) else s
    case Remap(key, code) => if key < |s.current| then s.(current := s.current[key := code]) else s
    case Reset => s.(current := d)
  }

  function RunAll(d: Layout, s: State, ops: seq<Op>, capacity: nat): (t: State)
    requires Wellformed(d, s)
    ensures Wellformed(d, t)
  {
    if ops == [] then s else Step(d, RunAll(d, s, ops[..|ops| - 1], capacity), ops[|ops| - 1], capacity)
  }

  predicate Rewrites(op: Op, num: nat) {
    op == Save(num) || op == Delete(num)
  }

  /** Whatever happens to the other slots and to the mapping in force, a saved layout is kept. */
  lemma {:induction false} OtherSlotsKept(d: Layout, s: State, ops: seq<Op>, capacity: nat, num: nat)
    requires Wellformed(d, s) && forall op :: op in ops ==> !Rewrites(op, num)
    ensures var t := RunAll(d, s, ops, capacity);
            (num in t.saved <==> num in s.saved) && (num in s.saved ==> t.saved[num] == s.saved[num])
  {
    if ops != [] {
      OtherSlotsKept(d, s, ops[..|ops| - 1], capacity, num);
      assert ops[|ops| - 1] in ops;
    }
  }

  /** A successful save, any other use of the keyboard, then a load: the whole mapping is back. */
  lemma LoadRestoresSave(d: Layout, s: State, num: nat, ops: seq<Op>, capacity: nat)
    requires Wellformed(d, s) && CanSave(d, s, num, capacity)
    requires forall op :: op in ops ==> !Rewrites(op, num)
    ensures var t := RunAll(d, Step(d, s, Save(num), capacity), ops, capacity);
            Step(d, t, Load(num), capacity).current == s.current
  {
    OtherSlotsKept(d, Step(d, s, Save(num), capacity), ops, capacity, num);
  }

  // ---- the packed blocks of a set of saved layouts ----

  /** Each block holds the differences of the layout saved in its slot. */
  ghost predicate Holds(d: Layout, bs: seq<SlotBlock>, saved: map<nat, Layout>) {
    && Fitting(d, saved) && Distinct(bs) && BlockKeys(bs) == saved.Keys
    && forall j :: 0 <= j < |bs| ==> HoldsAt(d, bs[j], saved)
  }

  ghost predicate HoldsAt(d: Layout, b: SlotBlock, saved: map<nat, Layout>)
    requires Fitting(d, saved)
  {
    b.key in saved && b.data == AllDiffs(d, saved[b.key])
  }

  lemma HoldsWithout(d: Layout, bs: seq<SlotBlock>, saved: map<nat, Layout>, i: nat)
    requires Holds(d, bs, saved) && i < |bs|
    ensures Holds(d, Without(bs, i), saved - {bs[i].key})
  {
    hide AllDiffs;
    var r := Without(bs, i);
    KeysWithout(bs, i);
    forall j | 0 <= j < |r|
      ensures HoldsAt(d, r[j], saved - {bs[i].key})
    {
      assert HoldsAt(d, bs[if j < i then j else j + 1], saved) && r[j].key in BlockKeys(r);
    }
  }

  lemma HoldsAppend(d: Layout, bs: seq<SlotBlock>, saved: map<nat, Layout>, num: nat, m: Layout)
    requires Holds(d, bs, saved) && num !in saved && num < SLOT_COUNT && |m| == |d|
    ensures Holds(d, bs + [Block(num, AllDiffs(d, m))], saved[num := m])
  {
    hide AllDiffs;
    var b := Block(num, AllDiffs(d, m));
    KeysAppend(bs, b);
    forall j | 0 <= j < |bs| + 1
      ensures HoldsAt(d, (bs + [b])[j], saved[num := m])
    {
      if j < |bs| { assert HoldsAt(d, bs[j], saved) && bs[j].key in BlockKeys(bs); }
    }
  }

  lemma {:induction false} UsedWithout(d: Layout, saved: map<nat, Layout>, k: nat, n: nat)
    requires Fitting(d, saved) && k in saved
    ensures RecordsUsed(d, saved, n)
         == RecordsUsed(d, saved - {k}, n) + if k < n then |AllDiffs(d, saved[k])| else 0
  {
    if n > 0 { UsedWithout(d, saved, k, n - 1); }
  }

  lemma {:induction false} NothingUsed(d: Layout, n: nat)
    requires Fitting(d, map[])
    ensures RecordsUsed(d, map[], n) == 0
  {
    if n > 0 { NothingUsed(d, n - 1); }
  }

  /** The packed length is the room the saved layouts take, whatever order they were saved in. */
  lemma {:induction false} UsedIsTotal(d: Layout, bs: seq<SlotBlock>, saved: map<nat, Layout>)
    requires Holds(d, bs, saved)
    ensures RecordsUsed(d, saved, SLOT_COUNT) == Total(bs)
    decreases |bs|
  {
    hide AllDiffs;
    if bs == [] {
      assert saved == map[];
      NothingUsed(d, SLOT_COUNT);
    } else {
      var i := |bs| - 1;
      HoldsWithout(d, bs, saved, i);
      assert HoldsAt(d, bs[i], saved);
      UsedIsTotal(d, Without(bs, i), saved - {bs[i].key});
      UsedWithout(d, saved, bs[i].key, SLOT_COUNT);
      TotalWithout(bs, i);
    }
  }
}
