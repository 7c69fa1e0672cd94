/**
 * What the macro index and the macro heap mean together: each recorded macro is a block of
 * the heap (a length word and its events) and the index holds the block's offset.
 */
module MacroHeap {
  import opened Bytes
  import opened MacroIndex
  import opened Packing
  import opened PagedMemory

  const HEADER: nat := 2      // the length word in front of a macro's events

  /** What a key combination is bound to. */
  datatype Content = Events(events: seq<Byte>) | ProgramId(id: nat)

  type MacroBlock = Block<Keys, Byte>

  function MacroBytes(events: seq<Byte>): seq<Byte>
    requires |events| < 0x1_0000
  {
    WordBytes(|events|) + events
  }

  /** The macro stored at an offset, as playback reads it. */
  function ReadMacro(heap: seq<Byte>, at: nat): seq<Byte> {
    if at + HEADER <= |heap| && at + HEADER + ReadWord(heap, at) <= |heap|
    then heap[at + HEADER..at + HEADER + ReadWord(heap, at)]
    else []
  }

  ghost predicate IsMacro(data: seq<Byte>) {
    |data| >= HEADER && |data| == HEADER + ReadWord(data, 0)
  }

  lemma MacroBytesRead(events: seq<Byte>)
    requires |events| < 0x1_0000
    ensures IsMacro(MacroBytes(events)) && MacroBytes(events)[HEADER..] == events
  {
  }

  /** The bytes of a macro, wherever they lie in the heap, read back as its events. */
  lemma ReadMacroInPlace(heap: seq<Byte>, at: nat, data: seq<Byte>)
    requires IsMacro(data) && at + |data| <= |heap| && heap[at..at + |data|] == data
    ensures ReadMacro(heap, at) == data[HEADER..]
  {
    assert heap[at] == data[0] && heap[at + 1] == data[1];
    assert heap[at + HEADER..at + |data|] == data[HEADER..];
  }

  predicate IsPending(pending: Option<Keys>, k: Keys) {
    pending.Some? && pending.value == k
  }

  /**
   * Index and blocks agree. While a macro is being recorded its key's entry points at the end
   * of the heap and has no block yet.
   */
  ghost predicate Agree(m: map<Keys, Word>, bs: seq<MacroBlock>, pending: Option<Keys>) {
    && Distinct(bs)
    && Total(bs) < 0x8000
    && (forall i :: 0 <= i < |bs| ==> Placed(m, bs, i))
    && (pending.Some? ==> pending.value !in BlockKeys(bs))
    && (forall k :: k in m && m[k] < 0x8000 && !IsPending(pending, k) ==> k in BlockKeys(bs))
    && (pending.Some? ==> pending.value in m && m[pending.value] == Total(bs))
  }

  /** Block i is a macro and the index entry of its key holds its offset. */
  ghost predicate Placed(m: map<Keys, Word>, bs: seq<MacroBlock>, i: nat)
    requires i < |bs|
  {
    IsMacro(bs[i].data) && bs[i].key in m && m[bs[i].key] == Start(bs, i)
  }

  function Binding(val: Word, heap: seq<Byte>): Content {
    if val >= 0x8000 then ProgramId(val - 0x8000) else Events(ReadMacro(heap, val))
  }

  /** The bindings a lookup followed by a read yields. */
  ghost function Bindings(m: map<Keys, Word>, heap: seq<Byte>, pending: Option<Keys>): map<Keys, Content> {
    map k | k in m && !IsPending(pending, k) :: Binding(m[k], heap)
  }

  lemma BindingsAre(m: map<Keys, Word>, heap: seq<Byte>, pending: Option<Keys>, bound: map<Keys, Content>)
    requires forall k :: k in bound <==> k in m && !IsPending(pending, k)
    requires forall k :: k in bound ==> bound[k] == Binding(m[k], heap)
    ensures Bindings(m, heap, pending) == bound
  {
  }

  /** A bound macro reads as the events of its block. */
  lemma BindingOfBlock(m: map<Keys, Word>, bs: seq<MacroBlock>, heap: seq<Byte>, i: nat)
    requires i < |bs| && Placed(m, bs, i) && Packed(heap, bs) && Total(bs) < 0x8000
    ensures Binding(m[bs[i].key], heap) == Events(bs[i].data[HEADER..])
  {
    assert InPlace(heap, bs, i);
    BlockFits(bs, i);
    ReadMacroInPlace(heap, Start(bs, i), bs[i].data);
  }

  /** A key bound to a macro has its block. */
  lemma BlockOf(m: map<Keys, Word>, bs: seq<MacroBlock>, pending: Option<Keys>, k: Keys) returns (i: nat)
    requires Agree(m, bs, pending) && k in m && m[k] < 0x8000 && !IsPending(pending, k)
    ensures i < |bs| && bs[i].key == k && Placed(m, bs, i)
  {
    i :| 0 <= i < |bs| && bs[i].key == k;
  }

  /** A program takes no heap space. */
  lemma ProgramHasNoBlock(m: map<Keys, Word>, bs: seq<MacroBlock>, pending: Option<Keys>, k: Keys)
    requires Agree(m, bs, pending) && k in m && m[k] >= 0x8000
    ensures k !in BlockKeys(bs)
  {
    if k in BlockKeys(bs) {
      var i :| 0 <= i < |bs| && bs[i].key == k;
      assert Placed(m, bs, i);
      BlockFits(bs, i);
    }
  }

  lemma BlockKeyMapped(m: map<Keys, Word>, bs: seq<MacroBlock>, i: nat)
    requires Agree(m, bs, None) && i < |bs|
    ensures bs[i].key in m && m[bs[i].key] == Start(bs, i)
    ensures bs[i].key in ShiftedMap(m, Start(bs, i), |bs[i].data|)
  {
    assert Placed(m, bs, i);
  }

  // ---- deleting a macro ----

  /** The index rewrite that follows a deletion: offsets above the gap come down by its length. */
  function ShiftedValue(val: nat, gap: nat, len: nat): (r: nat)
    ensures val < 0x1_0000 ==> r < 0x1_0000
  {
    if gap < val < 0x8000 then Wrap16(val - len) else val
  }

  function ShiftDown(gap: nat, len: nat): Entry -> Entry {
    (e: Entry) => Entry(e.keys, ShiftedValue(e.val, gap, len))
  }

  ghost function ShiftedMap(m: map<Keys, Word>, gap: nat, len: nat): map<Keys, Word> {
    map k | k in m :: ShiftedValue(m[k], gap, len)
  }

  lemma ShiftDownMaps(m: map<Keys, Word>, gap: nat, len: nat)
    ensures MapOver(m, ShiftDown(gap, len)) == ShiftedMap(m, gap, len)
  {
  }

  /** The index map after block i has been deleted and its entry dropped. */
  ghost function MapWithout(m: map<Keys, Word>, bs: seq<MacroBlock>, i: nat): map<Keys, Word>
    requires i < |bs|
  {
    ShiftedMap(m, Start(bs, i), |bs[i].data|) - {bs[i].key}
  }

  lemma ShiftedStart(bs: seq<MacroBlock>, i: nat, j: nat)
    requires i < |bs| && j < |bs| - 1 && Total(bs) < 0x8000 && |bs[i].data| > 0
    ensures ShiftedValue(Start(bs, if j < i then j else j + 1), Start(bs, i), |bs[i].data|) == Start(Without(bs, i), j)
  {
    StartWithout(bs, i, j);
    if j < i {
      StartOrder(bs, j, i);
      BlockFits(bs, j);
    } else {
      StartOrder(bs, i, j + 1);
      BlockFits(bs, j + 1);
    }
  }

  lemma ShiftedOffset(m: map<Keys, Word>, bs: seq<MacroBlock>, i: nat, j: nat)
    requires Agree(m, bs, None) && i < |bs| && j < |bs| - 1
    ensures Placed(MapWithout(m, bs, i), Without(bs, i), j)
  {
    var j' := if j < i then j else j + 1;
    assert Placed(m, bs, j') && Placed(m, bs, i);
    ShiftedStart(bs, i, j);
    assert bs[j'].key != bs[i].key;
  }

  lemma DeleteAgrees(m: map<Keys, Word>, bs: seq<MacroBlock>, i: nat)
    requires Agree(m, bs, None) && i < |bs|
    ensures Agree(MapWithout(m, bs, i), Without(bs, i), None)
  {
    hide Start;
    var m', r := MapWithout(m, bs, i), Without(bs, i);
    KeysWithout(bs, i);
    TotalWithout(bs, i);
    forall j | 0 <= j < |r|
      ensures Placed(m', r, j)
    {
      ShiftedOffset(m, bs, i, j);
    }
    forall k | k in m' && m'[k] < 0x8000
      ensures k in BlockKeys(r)
    {
      var _ := BlockOf(m, bs, None, k);
    }
  }

  lemma OtherBindingKept(m: map<Keys, Word>, bs: seq<MacroBlock>, heap: seq<Byte>, i: nat, heap': seq<Byte>, k: Keys)
    requires Agree(m, bs, None) && i < |bs| && Packed(heap, bs) && Packed(heap', Without(bs, i))
    requires k in MapWithout(m, bs, i)
    ensures Binding(MapWithout(m, bs, i)[k], heap') == Binding(m[k], heap)
  {
    hide Start;
    if m[k] < 0x8000 {
      var j := BlockOf(m, bs, None, k);
      assert Binding(m[k], heap) == Events(bs[j].data[HEADER..]) by {
        BindingOfBlock(m, bs, heap, j);
      }
      var m', r := MapWithout(m, bs, i), Without(bs, i);
      var j' := if j < i then j else j - 1;
      assert r[j'] == bs[j];
      assert Binding(m'[k], heap') == Events(bs[j].data[HEADER..]) by {
        DeleteAgrees(m, bs, i);
        assert Placed(m', r, j');
        BindingOfBlock(m', r, heap', j');
      }
    }
  }

  /** Deleting a macro removes its binding and no other, although other macros have moved. */
  lemma DeleteRemovesBinding(m: map<Keys, Word>, bs: seq<MacroBlock>, heap: seq<Byte>, i: nat, heap': seq<Byte>)
    requires Agree(m, bs, None) && i < |bs| && Packed(heap, bs) && Packed(heap', Without(bs, i))
    ensures Bindings(MapWithout(m, bs, i), heap', None) == Bindings(m, heap, None) - {bs[i].key}
  {
    hide Start;
    var m' := MapWithout(m, bs, i);
    forall k | k in m'
      ensures Binding(m'[k], heap') == Binding(m[k], heap)
    {
      OtherBindingKept(m, bs, heap, i, heap', k);
    }
    BindingsAre(m', heap', None, Bindings(m, heap, None) - {bs[i].key});
  }

  /** When the deleted macro is the last one there is nothing to shift. */
  lemma NothingAboveLast(m: map<Keys, Word>, bs: seq<MacroBlock>, i: nat)
    requires Agree(m, bs, None) && i < |bs| && Start(bs, i) + |bs[i].data| == Total(bs)
    ensures ShiftedMap(m, Start(bs, i), |bs[i].data|) == m
  {
    hide Start;
    forall k | k in m && m[k] < 0x8000
      ensures m[k] <= Start(bs, i)
    {
      var j := BlockOf(m, bs, None, k);
      if i < j { StartOrder(bs, i, j); BlockFits(bs, j); }
      if j < i { StartOrder(bs, j, i); }
    }
  }

  // ---- recording a macro ----

  lemma ProgramDropped(m: map<Keys, Word>, bs: seq<MacroBlock>, heap: seq<Byte>, k: Keys)
    requires Agree(m, bs, None) && k in m && m[k] >= 0x8000
    ensures Agree(m - {k}, bs, None) && Bindings(m - {k}, heap, None) == Bindings(m, heap, None) - {k}
  {
    hide Start;
    ProgramHasNoBlock(m, bs, None, k);
    forall i | 0 <= i < |bs|
      ensures Placed(m - {k}, bs, i)
    {
      assert Placed(m, bs, i) && bs[i].key in BlockKeys(bs);
    }
  }

  /** The entry of an unbound key may point at the end of the heap while its macro is recorded. */
  lemma PendingBegins(m: map<Keys, Word>, bs: seq<MacroBlock>, heap: seq<Byte>, k: Keys)
    requires Agree(m, bs, None) && k !in m
    ensures Agree(m[k := Total(bs)], bs, Some(k))
    ensures Bindings(m[k := Total(bs)], heap, Some(k)) == Bindings(m, heap, None)
  {
    hide Start;
    forall i | 0 <= i < |bs|
      ensures Placed(m[k := Total(bs)], bs, i) && bs[i].key != k
    {
      assert Placed(m, bs, i);
    }
  }

  lemma PendingDropped(m: map<Keys, Word>, bs: seq<MacroBlock>, heap: seq<Byte>, k: Keys)
    requires Agree(m, bs, Some(k))
    ensures Agree(m - {k}, bs, None) && Bindings(m - {k}, heap, None) == Bindings(m, heap, Some(k))
  {
    hide Start;
    forall i | 0 <= i < |bs|
      ensures Placed(m - {k}, bs, i)
    {
      assert Placed(m, bs, i) && bs[i].key in BlockKeys(bs);
    }
  }

  lemma CommitAgrees(m: map<Keys, Word>, bs: seq<MacroBlock>, k: Keys, data: seq<Byte>)
    requires Agree(m, bs, Some(k)) && IsMacro(data) && Total(bs) + |data| < 0x8000
    ensures Agree(m, bs + [Block(k, data)], None)
  {
    var b, r := Block(k, data), bs + [Block(k, data)];
    TotalAppend(bs, b);
    KeysAppend(bs, b);
    forall i | 0 <= i < |r|
      ensures Placed(m, r, i)
    {
      if i < |bs| {
        StartInAppend(bs, b, i);
        assert Placed(m, bs, i);
      }
    }
  }

  /** Committing binds the key to the recorded events and changes no other binding. */
  lemma CommitBinds(m: map<Keys, Word>, bs: seq<MacroBlock>, heap: seq<Byte>, k: Keys, events: seq<Byte>,
                    heap': seq<Byte>)
    requires Agree(m, bs, Some(k)) && Packed(heap, bs) && Total(bs) + HEADER + |events| < 0x8000
    requires Packed(heap', bs + [Block(k, MacroBytes(events))])
    ensures Bindings(m, heap', None) == Bindings(m, heap, Some(k))[k := Events(events)]
  {
    hide Start;
    MacroBytesRead(events);
    TotalAppend(bs, Block(k, MacroBytes(events)));
    var r := bs + [Block(k, MacroBytes(events))];
    CommitAgrees(m, bs, k, MacroBytes(events));
    forall k' | k' in m
      ensures Binding(m[k'], heap') == if k' == k then Events(events) else Binding(m[k'], heap)
    {
      if k' == k {
        assert Placed(m, r, |bs|);
        BindingOfBlock(m, r, heap', |bs|);
      } else if m[k'] < 0x8000 {
        var j := BlockOf(m, bs, Some(k), k');
        BindingOfBlock(m, bs, heap, j);
        assert Placed(m, r, j) && r[j] == bs[j];
        BindingOfBlock(m, r, heap', j);
      }
    }
  }

  /** Bindings depend on the blocks only, not on the rest of the heap. */
  lemma SameBlocksSameBindings(m: map<Keys, Word>, bs: seq<MacroBlock>, pending: Option<Keys>, heap: seq<Byte>,
                               heap': seq<Byte>)
    requires Agree(m, bs, pending) && Packed(heap, bs) && Packed(heap', bs)
    ensures Bindings(m, heap', pending) == Bindings(m, heap, pending)
  {
    hide Start;
    forall k | k in m && !IsPending(pending, k)
      ensures Binding(m[k], heap') == Binding(m[k], heap)
    {
      if m[k] < 0x8000 {
        var i := BlockOf(m, bs, pending, k);
        BindingOfBlock(m, bs, heap, i);
        BindingOfBlock(m, bs, heap', i);
      }
    }
  }

  lemma LengthWordCompletes(heap: seq<Byte>, at: nat, events: seq<Byte>, heap': seq<Byte>)
    requires |events| < 0x1_0000 && at + HEADER + |events| <= |heap|
    requires heap[at + HEADER..at + HEADER + |events|] == events && heap' == Splice(heap, at, WordBytes(|events|))
    ensures |MacroBytes(events)| == HEADER + |events|
    ensures heap'[..at] == heap[..at] && heap'[at..at + HEADER + |events|] == MacroBytes(events)
  {
    hide WordBytes;
    var x, y := heap'[at..at + HEADER + |events|], MacroBytes(events);
    forall i | 0 <= i < |x|
      ensures x[i] == y[i]
    {
      if i >= HEADER { assert heap[at + HEADER..at + HEADER + |events|][i - HEADER] == heap[at + i]; }
    }
  }

  /** Writing the length word in front of the recorded events completes a new block. */
  lemma RecordingCommitted(m: map<Keys, Word>, bs: seq<MacroBlock>, heap: seq<Byte>, k: Keys, events: seq<Byte>,
                           heap': seq<Byte>)
    requires Agree(m, bs, Some(k)) && Packed(heap, bs) && |events| < 0x8000
    requires var at := Total(bs);
             at + HEADER + |events| <= |heap| < 0x8000 && heap[at + HEADER..at + HEADER + |events|] == events
             && heap' == Splice(heap, at, WordBytes(|events|))
    ensures var r := bs + [Block(k, MacroBytes(events))];
            Agree(m, r, None) && Packed(heap', r) && Total(r) == Total(bs) + HEADER + |events|
    ensures Bindings(m, heap', None) == Bindings(m, heap, Some(k))[k := Events(events)]
  {
    hide Agree, Bindings, Start, Splice, MacroBytes, IsMacro, Packed, WordBytes;
    var b, at := Block(k, MacroBytes(events)), Total(bs);
    MacroBytesRead(events);
    LengthWordCompletes(heap, at, events, heap');
    TotalAppend(bs, b);
    PackedAppend(heap, bs, b, heap');
    CommitAgrees(m, bs, k, b.data);
    CommitBinds(m, bs, heap, k, events, heap');
  }

  /** A block written behind the others. */
  lemma BlockWritten(heap: seq<Byte>, bs: seq<MacroBlock>, b: MacroBlock, now: seq<Byte>)
    requires Packed(heap, bs) && Total(bs) + |b.data| <= |heap| && now == Splice(heap, Total(bs), b.data)
    ensures Packed(now, bs + [b]) && Total(bs + [b]) == Total(bs) + |b.data|
  {
    hide Start;
    TotalAppend(bs, b);
    PackedAppend(heap, bs, b, now);
  }

  // ---- default macros ----

  function DefaultBlock(def: Default): MacroBlock {
    Block(DefaultKeys(def.lkey), MacroBytes(def.hkeys))
  }

  lemma DefaultBlockIs(def: Default)
    ensures IsMacro(DefaultBlock(def).data) && |DefaultBlock(def).data| == DEFAULT_BLOCK
    ensures DefaultBlock(def).data[HEADER..] == def.hkeys && DefaultBlock(def).key == DefaultKeys(def.lkey)
  {
    MacroBytesRead(def.hkeys);
  }

  /** The heap blocks of the first n default macros, in table order. */
  function DefaultBlocks(defs: seq<Default>, n: nat): (bs: seq<MacroBlock>)
    requires n <= |defs|
    ensures |bs| == n && forall d :: 0 <= d < n ==> bs[d] == DefaultBlock(defs[d])
  {
    seq(n, d requires 0 <= d < n => DefaultBlock(defs[d]))
  }

  lemma {:induction false} DefaultStarts(defs: seq<Default>, bs: seq<MacroBlock>, n: nat)
    requires n <= |bs| <= |defs| && forall d :: 0 <= d < |bs| ==> bs[d] == DefaultBlock(defs[d])
    ensures Start(bs, n) == n * DEFAULT_BLOCK
  {
    hide DefaultBlock;
    if n > 0 {
      DefaultStarts(defs, bs, n - 1);
      DefaultBlockIs(defs[n - 1]);
    }
  }

  lemma DefaultPlaced(m: map<Keys, Word>, defs: seq<Default>, bs: seq<MacroBlock>, d: nat)
    requires DefaultTable(defs) && MapsDefaults(m, defs) && bs == DefaultBlocks(defs, |defs|) && d < |defs|
    ensures Placed(m, bs, d) && bs[d].key == DefaultKeys(defs[d].lkey)
  {
    hide Start, DefaultBlock, DefaultBlocks, MacroBytes, IsMacro;
    DefaultStarts(defs, bs, d);
    DefaultBlockIs(defs[d]);
  }

  ghost predicate KeyedLike(bs: seq<MacroBlock>, defs: seq<Default>) {
    |bs| == |defs| && forall d :: 0 <= d < |bs| ==> bs[d].key == DefaultKeys(defs[d].lkey)
  }

  lemma DefaultsDistinct(defs: seq<Default>, bs: seq<MacroBlock>)
    requires DefaultTable(defs) && KeyedLike(bs, defs)
    ensures Distinct(bs)
  {
    forall i, j | 0 <= i < j < |bs|
      ensures bs[i].key != bs[j].key
    {
      assert bs[i].key[0] == defs[i].lkey && bs[j].key[0] == defs[j].lkey;
    }
  }

  lemma DefaultsCovered(m: map<Keys, Word>, defs: seq<Default>, bs: seq<MacroBlock>, k: Keys)
    requires DefaultTable(defs) && MapsDefaults(m, defs) && KeyedLike(bs, defs) && k in m
    ensures k in BlockKeys(bs)
  {
    var d :| 0 <= d < |defs| && k == DefaultKeys(defs[d].lkey);
    assert bs[d].key == k;
  }

  /** The index in key order and the heap in table order agree. */
  lemma DefaultsAgree(m: map<Keys, Word>, defs: seq<Default>)
    requires DefaultTable(defs) && MapsDefaults(m, defs)
    ensures Agree(m, DefaultBlocks(defs, |defs|), None)
    ensures Total(DefaultBlocks(defs, |defs|)) == |defs| * DEFAULT_BLOCK
  {
    hide Start, DefaultBlock, DefaultBlocks, Placed, MapsDefaults, BlockKeys, Distinct, DefaultKeys;
    var bs := DefaultBlocks(defs, |defs|);
    DefaultStarts(defs, bs, |bs|);
    forall d | 0 <= d < |bs|
      ensures Placed(m, bs, d) && bs[d].key == DefaultKeys(defs[d].lkey)
    {
      DefaultPlaced(m, defs, bs, d);
    }
    DefaultsDistinct(defs, bs);
    forall k | k in m
      ensures k in BlockKeys(bs)
    {
      DefaultsCovered(m, defs, bs, k);
    }
  }

  /** Every default trigger is bound to its own three events and nothing else is bound. */
  ghost predicate BindsDefaults(bound: map<Keys, Content>, defs: seq<Default>) {
    && (forall d :: 0 <= d < |defs| ==>
          DefaultKeys(defs[d].lkey) in bound && bound[DefaultKeys(defs[d].lkey)] == Events(defs[d].hkeys))
    && (forall k :: k in bound ==> exists d :: 0 <= d < |defs| && k == DefaultKeys(defs[d].lkey))
  }

  /** What the first n default triggers bind. */
  function DefaultBindings(defs: seq<Default>, n: nat): map<Keys, Content>
    requires n <= |defs|
  {
    if n == 0 then map[]
    else DefaultBindings(defs, n - 1)[DefaultKeys(defs[n - 1].lkey) := Events(defs[n - 1].hkeys)]
  }

  lemma {:induction false} DefaultBindingsAre(defs: seq<Default>, n: nat)
    requires DefaultTable(defs) && n <= |defs|
    ensures forall d :: 0 <= d < n ==>
              var k := DefaultKeys(defs[d].lkey);
              k in DefaultBindings(defs, n) && DefaultBindings(defs, n)[k] == Events(defs[d].hkeys)
    ensures forall k :: k in DefaultBindings(defs, n) ==> exists d :: 0 <= d < n && k == DefaultKeys(defs[d].lkey)
  {
    hide DefaultKeys;
    if n > 0 {
      DefaultBindingsAre(defs, n - 1);
      forall d | 0 <= d < n - 1
        ensures DefaultKeys(defs[d].lkey) != DefaultKeys(defs[n - 1].lkey)
      {
        OtherDefault(defs, d, n - 1);
      }
    }
  }

  lemma OtherDefault(defs: seq<Default>, c: nat, d: nat)
    requires DefaultTable(defs) && c < d < |defs|
    ensures DefaultKeys(defs[c].lkey) != DefaultKeys(defs[d].lkey)
  {
    assert DefaultKeys(defs[c].lkey)[0] == defs[c].lkey && DefaultKeys(defs[d].lkey)[0] == defs[d].lkey;
  }

  /** The default bindings are the only ones that bind exactly the defaults. */
  lemma OnlyDefaults(bound: map<Keys, Content>, defs: seq<Default>)
    requires DefaultTable(defs) && BindsDefaults(bound, defs)
    ensures bound == DefaultBindings(defs, |defs|)
  {
    hide DefaultKeys, DefaultBindings;
    DefaultBindingsAre(defs, |defs|);
    var defaults := DefaultBindings(defs, |defs|);
    forall k
      ensures k in bound <==> k in defaults
      ensures k in bound && k in defaults ==> bound[k] == defaults[k]
    {
    }
    assert bound == defaults;
  }

  lemma DefaultsBound(m: map<Keys, Word>, defs: seq<Default>, heap: seq<Byte>)
    requires DefaultTable(defs) && MapsDefaults(m, defs) && Packed(heap, DefaultBlocks(defs, |defs|))
    ensures BindsDefaults(Bindings(m, heap, None), defs)
  {
    hide Start, DefaultBlock, MacroBytes, IsMacro, DefaultBlocks, ReadMacro;
    var bs := DefaultBlocks(defs, |defs|);
    DefaultsAgree(m, defs);
    forall d | 0 <= d < |defs|
      ensures var k := DefaultKeys(defs[d].lkey);
              k in Bindings(m, heap, None) && Bindings(m, heap, None)[k] == Events(defs[d].hkeys)
    {
      DefaultPlaced(m, defs, bs, d);
      DefaultBlockIs(defs[d]);
      BindingOfBlock(m, bs, heap, d);
    }
  }

  // ---- tiling ----

  /** Byte x of the heap belongs to the macro of key k. */
  ghost predicate Owns(m: map<Keys, Word>, heap: seq<Byte>, k: Keys, x: nat) {
    && k in m && m[k] < 0x8000
    && m[k] <= x < m[k] + HEADER + |ReadMacro(heap, m[k])|
  }

  lemma OwnsIsBlock(m: map<Keys, Word>, bs: seq<MacroBlock>, pending: Option<Keys>, heap: seq<Byte>, i: nat, x: nat)
    requires Agree(m, bs, pending) && Packed(heap, bs) && i < |bs|
    ensures Owns(m, heap, bs[i].key, x) <==> Start(bs, i) <= x < Start(bs, i) + |bs[i].data|
  {
    hide Start;
    assert Placed(m, bs, i);
    BlockFits(bs, i);
    BindingOfBlock(m, bs, heap, i);
  }

  lemma OwnerIsBlock(m: map<Keys, Word>, bs: seq<MacroBlock>, pending: Option<Keys>, heap: seq<Byte>, k: Keys, x: nat)
    returns (i: nat)
    requires Agree(m, bs, pending) && Packed(heap, bs) && !IsPending(pending, k) && Owns(m, heap, k, x)
    ensures i < |bs| && bs[i].key == k && Start(bs, i) <= x < Start(bs, i) + |bs[i].data| <= Total(bs)
  {
    hide Start;
    i := BlockOf(m, bs, pending, k);
    OwnsIsBlock(m, bs, pending, heap, i, x);
    BlockFits(bs, i);
  }

  /** The recorded macros tile the heap: every byte below the end offset belongs to a macro ... */
  lemma MacrosCoverHeap(m: map<Keys, Word>, bs: seq<MacroBlock>, pending: Option<Keys>, heap: seq<Byte>, x: nat)
    requires Agree(m, bs, pending) && Packed(heap, bs)
    ensures x < Total(bs) <==> exists k :: !IsPending(pending, k) && Owns(m, heap, k, x)
  {
    hide Start;
    if x < Total(bs) {
      var i := SomeBlockCovers(bs, |bs|, x);
      OwnsIsBlock(m, bs, pending, heap, i, x);
      assert bs[i].key in BlockKeys(bs);
      assert Owns(m, heap, bs[i].key, x);
    }
    forall k | !IsPending(pending, k) && Owns(m, heap, k, x)
      ensures x < Total(bs)
    {
      var _ := OwnerIsBlock(m, bs, pending, heap, k, x);
    }
  }

  /** ... and to one only. */
  lemma MacrosDoNotOverlap(m: map<Keys, Word>, bs: seq<MacroBlock>, pending: Option<Keys>, heap: seq<Byte>,
                           k: Keys, k': Keys, x: nat)
    requires Agree(m, bs, pending) && Packed(heap, bs)
    requires !IsPending(pending, k) && !IsPending(pending, k') && Owns(m, heap, k, x) && Owns(m, heap, k', x)
    ensures k == k'
  {
    hide Start;
    var i := OwnerIsBlock(m, bs, pending, heap, k, x);
    var j := OwnerIsBlock(m, bs, pending, heap, k', x);
    OneBlockPerByte(bs, i, j, x);
  }
}
