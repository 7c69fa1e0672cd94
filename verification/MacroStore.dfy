/**
 * Recording, deleting and reading macros (macro.c). The heap lives in the SPI EEPROM: a word
 * with the end offset, then the packed macros. The index lives in the internal EEPROM.
 */
module MacroStore {
  import opened Bytes
  import opened PagedMemory
  import opened Packing
  import opened MacroIndex
  import opened MacroHeap
  import opened MacroSession
  import SpiEeprom

  // ---- the storage region [base, base + size) ----

  function HeapOf(mem: seq<Byte>, base: nat, size: nat): (heap: seq<Byte>)
    requires 2 <= size && base + size <= |mem|
    ensures |heap| == size - 2
  {
    mem[base + 2..base + size]
  }

  /** Memory outside the macro region is untouched. */
  ghost predicate SameOutside(a: seq<Byte>, b: seq<Byte>, base: nat, size: nat) {
    && |a| == |b| && base + size <= |a|
    && a[..base] == b[..base] && a[base + size..] == b[base + size..]
  }

  lemma HeapWrite(mem: seq<Byte>, base: nat, size: nat, at: nat, off: nat, data: seq<Byte>)
    requires 2 <= size && base + size <= |mem| && at == base + 2 + off && at + |data| <= base + size
    ensures HeapOf(Splice(mem, at, data), base, size) == Splice(HeapOf(mem, base, size), off, data)
    ensures ReadWord(Splice(mem, at, data), base) == ReadWord(mem, base)
    ensures SameOutside(mem, Splice(mem, at, data), base, size)
  {
  }

  lemma SpliceOne(mem: seq<Byte>, at: nat, b: Byte)
    requires at < |mem|
    ensures Splice(mem, at, [b]) == mem[at := b]
  {
  }

  /** A byte behind the region changes something there unless it is the byte that was there. */
  lemma WriteBehind(mem: seq<Byte>, base: nat, size: nat, at: nat, event: Byte)
    requires 2 <= size && base + size <= at < |mem|
    ensures HeapOf(Splice(mem, at, [event]), base, size) == HeapOf(mem, base, size)
    ensures SameOutside(mem, Splice(mem, at, [event]), base, size) <==> mem[at] == event
  {
    var now := Splice(mem, at, [event]);
    assert now[base + size..][at - (base + size)] == event;
    assert mem[base + size..][at - (base + size)] == mem[at];
    if mem[at] == event { assert now == mem; }
  }

  lemma EndWrite(mem: seq<Byte>, base: nat, size: nat, w: Word)
    requires 2 <= size && base + size <= |mem|
    ensures HeapOf(Splice(mem, base, WordBytes(w)), base, size) == HeapOf(mem, base, size)
    ensures ReadWord(Splice(mem, base, WordBytes(w)), base) == w
    ensures SameOutside(mem, Splice(mem, base, WordBytes(w)), base, size)
  {
  }

  lemma HeapSlice(mem: seq<Byte>, base: nat, size: nat, from: nat, to: nat)
    requires 2 <= size && base + size <= |mem| && from <= to <= size - 2
    ensures HeapOf(mem, base, size)[from..to] == mem[base + 2 + from..base + 2 + to]
  {
    SliceOfSlice(mem, base + 2, HeapOf(mem, base, size), from, to - from, base + 2 + from);
  }

  lemma NothingOutsideChanged(mem: seq<Byte>, base: nat, size: nat)
    requires base + size <= |mem|
    ensures SameOutside(mem, mem, base, size)
  {
  }

  /** Writing behind the packed blocks changes none of them. */
  lemma RecordingKeepsBlocks(heap: seq<Byte>, bs: seq<MacroBlock>, at: nat, data: seq<Byte>,
                             m: map<Keys, Word>, pending: Option<Keys>)
    requires Packed(heap, bs) && Agree(m, bs, pending) && Total(bs) <= at && at + |data| <= |heap|
    ensures Packed(Splice(heap, at, data), bs)
    ensures Bindings(m, Splice(heap, at, data), pending) == Bindings(m, heap, pending)
  {
    hide Agree, Start, ReadMacro;
    PackedPrefix(heap, Splice(heap, at, data), bs);
    SameBlocksSameBindings(m, bs, pending, heap, Splice(heap, at, data));
  }

  lemma SliceExtended(heap: seq<Byte>, from: nat, to: nat, event: Byte)
    requires from <= to < |heap|
    ensures Splice(heap, to, [event])[from..to + 1] == heap[from..to] + [event]
  {
  }

  /** One downward move of the rest of the heap closes the gap. */
  lemma MoveClosesGap(heap: seq<Byte>, gap: nat, rest: nat, end: nat)
    requires gap <= rest <= end <= |heap|
    ensures Splice(heap, gap, heap[rest..end]) == ClosedUp(heap, gap, rest, end)
  {
  }

  lemma NothingPacked(heap: seq<Byte>)
    ensures Packed<Keys, Byte>(heap, []) && Total<Keys, Byte>([]) == 0
  {
  }

  lemma OutsideTwice(a: seq<Byte>, b: seq<Byte>, c: seq<Byte>, base: nat, size: nat)
    requires SameOutside(a, b, base, size) && SameOutside(b, c, base, size)
    ensures SameOutside(a, c, base, size)
  {
  }

  lemma EndFits(heap: seq<Byte>, bs: seq<MacroBlock>, size: nat)
    requires Packed(heap, bs) && |heap| == size - 2 && size - 2 < 0x8000
    ensures Total(bs) < 0x8000 && Total(bs) <= size - 2
  {
  }

  class Store {
    const index: Index
    const chip: SpiEeprom.Chip
    const base: nat
    const size: nat
    const defs: seq<Default>    // the factory macros
    var macro: Option<nat>      // heap offset of the macro being recorded
    var cursor: nat             // heap offset for its next event
    var entry: nat              // its place in the index
    ghost var blocks: seq<MacroBlock>

    ghost function Heap(): seq<Byte>
      requires 2 <= size && base + size <= |chip.mem|
      reads chip
    {
      HeapOf(chip.mem, base, size)
    }

    /** Heap and blocks match and the end offset is their total length. */
    ghost predicate HeapValid()
      reads this`blocks, chip
    {
      && chip.Closed() && 2 <= size && size - 2 < 0x8000 && base + size <= |chip.mem|
      && Packed(Heap(), blocks) && ReadWord(chip.mem, base) == Total(blocks) && DefaultsFit()
    }

    /** The factory macros fit the index and the heap. */
    ghost predicate DefaultsFit() {
      DefaultTable(defs) && |defs| <= index.entries.Length && |defs| * DEFAULT_BLOCK <= size - 2
    }

    ghost predicate Valid()
      reads this, chip, index, index.entries
    {
      && HeapValid() && index.Valid()
      && (macro.Some? ==> entry < index.count && entry < index.entries.Length)
      && Agree(index.Map(), blocks, Pending())
      && (macro.Some? ==> macro.value == Total(blocks) && macro.value + HEADER <= cursor
                          && (cursor == macro.value + HEADER || cursor <= size - 2))
    }

    /** The key whose macro is being recorded. */
    ghost function Pending(): Option<Keys>
      requires macro.Some? ==> entry < index.entries.Length
      reads this, index.entries
    {
      if macro.Some? then Some(index.entries[entry].keys) else None
    }

    /** What each key combination is bound to. */
    ghost function Bound(): map<Keys, Content>
      requires Valid()
      reads this, chip, index, index.entries
    {
      Bindings(index.Map(), Heap(), Pending())
    }

    /** The events recorded so far. */
    ghost function Recorded(): seq<Byte>
      requires Valid() && macro.Some?
      reads this, chip, index, index.entries
    {
      if cursor <= size - 2 then Heap()[macro.value + HEADER..cursor] else []
    }

    ghost predicate HasRoom()
      reads this
    {
      cursor < size - 2
    }

    constructor (index: Index, chip: SpiEeprom.Chip, base: nat, size: nat, defs: seq<Default>)
      requires DefaultTable(defs) && |defs| <= index.entries.Length && |defs| * DEFAULT_BLOCK <= size - 2
      requires index.Valid() && index.Live() == [] && chip.Closed()
      requires 2 <= size && size - 2 < 0x8000 && base + size <= |chip.mem| && ReadWord(chip.mem, base) == 0
      ensures Valid() && macro.None? && Bound() == map[]
      ensures this.index == index && this.chip == chip && this.base == base && this.size == size
      ensures this.defs == defs
    {
      this.index, this.chip, this.base, this.size, this.defs := index, chip, base, size, defs;
      macro, cursor, entry, blocks := None, 0, 0, [];
    }

    /** Writes the factory macros: the index first, then their data in table order. */
    method ResetDefaults()
      requires DefaultsFit() && macro.None? && Region() && size - 2 < 0x8000 && 0 < index.entries.Length < 0x100
      modifies this`blocks, chip, index`count, index.entries
      ensures Valid() && macro.None? && BindsDefaults(Bound(), defs)
      ensures SameOutside(old(chip.mem), chip.mem, base, size)
    {
      hide Agree, Packed, AsMap, WellFormed, Start, HeapOf, ReadWord, MapsDefaults, BindsDefaults, Splice,
           SameOutside, MacroBytes, Sorted, DefaultKeys;
      NothingOutsideChanged(chip.mem, base, size);
      ghost var before := chip.mem;
      index.ResetDefaults(defs);
      blocks := [];
      NothingPacked(Heap());
      var i := 0;
      while i < |defs|
        invariant 0 <= i <= |defs| && Region() && index.Valid() && MapsDefaults(index.Map(), defs)
        invariant blocks == DefaultBlocks(defs, i) && Packed(Heap(), blocks) && Total(blocks) == i * DEFAULT_BLOCK
        invariant SameOutside(before, chip.mem, base, size)
      {
        ghost var heap := Heap();
        var block := DefaultBlock(defs[i]);
        var data, at := block.data, i * DEFAULT_BLOCK;
        DefaultBlockIs(defs[i]);
        chip.WaitForLastWriteEnd();
        ghost var mid := chip.mem;
        WriteHeap(at, data);
        OutsideTwice(before, mid, chip.mem, base, size);
        BlockWritten(heap, blocks, block, Heap());
        blocks := blocks + [block];
        i := i + 1;
      }
      DefaultsAgree(index.Map(), defs);
      DefaultsBound(index.Map(), defs, Heap());
      chip.WaitForLastWriteEnd();
      ghost var mid := chip.mem;
      WriteEnd(i * DEFAULT_BLOCK);
      OutsideTwice(before, mid, chip.mem, base, size);
    }

    /** A full reset forgets all bindings but the factory macros. */
    method ResetFully()
      requires Valid() && macro.None?
      modifies this`blocks, chip, index`count, index.entries
      ensures Valid() && macro.None? && Bound() == DefaultBindings(defs, |defs|)
      ensures SameOutside(old(chip.mem), chip.mem, base, size)
    {
      hide BindsDefaults, DefaultBindings, DefaultTable, SameOutside, WellFormed, Agree, Packed;
      ResetDefaults();
      OnlyDefaults(Bound(), defs);
    }

    // ---- access to the region ----

    ghost predicate Region()
      reads chip
    {
      chip.Closed() && 2 <= size && base + size <= |chip.mem|
    }

    method WriteHeap(off: nat, data: seq<Byte>)
      requires Region() && off + |data| <= size - 2
      modifies chip
      ensures Region() && Heap() == Splice(old(Heap()), off, data)
      ensures ReadWord(chip.mem, base) == old(ReadWord(chip.mem, base))
      ensures SameOutside(old(chip.mem), chip.mem, base, size)
    {
      var at := base + 2 + off;
      HeapWrite(chip.mem, base, size, at, off, data);
      var _ := chip.Write(at, data);
    }

    method WriteEnd(end: Word)
      requires Region()
      modifies chip
      ensures Region() && Heap() == old(Heap()) && ReadWord(chip.mem, base) == end
      ensures SameOutside(old(chip.mem), chip.mem, base, size)
    {
      EndWrite(chip.mem, base, size, end);
      var _ := chip.Write(base, WordBytes(end));
    }

    method MoveHeapDown(to: nat, from: nat, n: nat)
      requires Region() && to <= from && from + n <= size - 2
      modifies chip
      ensures Region() && Heap() == Splice(old(Heap()), to, old(Heap())[from..from + n])
      ensures ReadWord(chip.mem, base) == old(ReadWord(chip.mem, base))
      ensures SameOutside(old(chip.mem), chip.mem, base, size)
    {
      hide Splice, ReadWord, SameOutside;
      var dst, src := base + 2 + to, base + 2 + from;
      ghost var data := chip.mem[src..src + n];
      SliceOfSlice(chip.mem, base + 2, Heap(), from, n, src);
      HeapWrite(chip.mem, base, size, dst, to, data);
      chip.MemMove(dst, src, n);
    }

    method ReadLength(off: nat) returns (n: Word)
      requires Region() && chip.Ready() && off + 2 <= size - 2
      ensures n == ReadWord(Heap(), off)
    {
      n := chip.ReadWordAt(base + 2 + off);
    }

    // ---- deleting ----

    /** The space block i takes, read from its length word. */
    method BlockLength(gap: nat, ghost i: nat) returns (len: nat)
      requires Valid() && macro.None? && chip.Ready() && i < |blocks| && gap == Start(blocks, i)
      ensures len == |blocks[i].data| && gap + len <= Total(blocks)
    {
      assert Placed(index.Map(), blocks, i) && InPlace(Heap(), blocks, i);
      BlockFits(blocks, i);
      var length := ReadLength(gap);
      assert blocks[i].data[..] == Heap()[gap..gap + |blocks[i].data|];
      len := length + HEADER;
    }

    /** Moves what lies above the gap down and lowers the offsets that point there. */
    method MoveRestDown(gap: nat, len: nat, end: nat, ghost i: nat)
      requires Valid() && macro.None? && i < |blocks| && gap == Start(blocks, i) && len == |blocks[i].data|
      requires end == Total(blocks) && gap + len <= end
      modifies chip, index.entries
      ensures Region() && Heap() == Splice(old(Heap()), gap, old(Heap())[gap + len..end])
      ensures index.Valid() && index.Map() == ShiftedMap(old(index.Map()), gap, len)
      ensures forall p :: 0 <= p < index.entries.Length ==> index.entries[p].keys == old(index.entries[p].keys)
      ensures SameOutside(old(chip.mem), chip.mem, base, size)
    {
      hide Start, WellFormed, AsMap, ReadWord, ShiftedMap, Agree, Packed, Splice, SameOutside;
      ghost var m, heap := index.Map(), Heap();
      PackedFits(heap, blocks);
      SpliceNothing(heap, gap, heap[gap + len..end]);
      NothingOutsideChanged(chip.mem, base, size);
      var rest := gap + len;
      var restLength := end - rest;
      if restLength != 0 {
        MoveHeapDown(gap, rest, restLength);
        index.Iterate(ShiftDown(gap, len));
        ShiftDownMaps(m, gap, len);
      } else {
        NothingAboveLast(m, blocks, i);
        assert heap[rest..end] == heap[rest..end][..0];
      }
    }

    /** Removes block i from the heap and from the offsets of the index. */
    method CloseGap(gap: nat, ghost i: nat)
      requires Valid() && macro.None? && chip.Ready() && i < |blocks| && gap == Start(blocks, i)
      modifies this`blocks, chip, index.entries
      ensures HeapValid() && blocks == Without(old(blocks), i)
      ensures index.Valid() && index.Map() == ShiftedMap(old(index.Map()), gap, |old(blocks)[i].data|)
      ensures forall p :: 0 <= p < index.entries.Length ==> index.entries[p].keys == old(index.entries[p].keys)
      ensures SameOutside(old(chip.mem), chip.mem, base, size)
    {
      hide WellFormed, AsMap, ShiftedMap, Agree, Splice, HeapOf, ReadWord, Start, Packed;
      PackedFits(Heap(), blocks);
      var len := BlockLength(gap, i);
      var end: nat := chip.ReadWordAt(base);
      MoveRestDown(gap, len, end, i);
      MoveClosesGap(old(Heap()), gap, gap + len, end);
      PackedWithout(old(Heap()), blocks, i, Heap());
      TotalWithout(blocks, i);
      chip.WaitForLastWriteEnd();
      WriteEnd(end - len);
      blocks := Without(blocks, i);
      PackedFits(Heap(), blocks);
    }

    /** The store is consistent apart from the entry of k, whose value is stale. */
    ghost predicate ConsistentExcept(k: Keys, bound: map<Keys, Content>)
      reads this`blocks, chip, index, index.entries
    {
      && HeapValid() && index.Valid() && k in index.Map()
      && Agree(index.Map() - {k}, blocks, None)
      && Bindings(index.Map() - {k}, Heap(), None) == bound
    }

    method DeleteMacro(gap: nat, ghost k: Keys, ghost i: nat)
      requires Valid() && macro.None? && chip.Ready()
      requires i < |blocks| && k == blocks[i].key && gap == Start(blocks, i)
      modifies this`blocks, chip, index.entries
      ensures ConsistentExcept(k, old(Bound()) - {k})
      ensures forall p :: 0 <= p < index.entries.Length ==> index.entries[p].keys == old(index.entries[p].keys)
      ensures SameOutside(old(chip.mem), chip.mem, base, size)
    {
      hide WellFormed, AsMap, Agree, Packed, Start, HeapOf, ReadWord, ShiftedMap, Bindings, SameOutside, Distinct;
      ghost var m, bs, heap := index.Map(), blocks, Heap();
      BlockKeyMapped(m, bs, i);
      DeleteAgrees(m, bs, i);
      CloseGap(gap, i);
      DeleteRemovesBinding(m, bs, heap, i, Heap());
    }

    /** Deletes the macro of entry p, if it has one; a program has no data to delete. */
    method DeleteMacroData(p: nat)
      requires Valid() && macro.None? && chip.Ready() && p < index.count
      modifies this`blocks, chip, index.entries
      ensures ConsistentExcept(index.entries[p].keys, old(Bound()) - {index.entries[p].keys})
      ensures index.entries[p].keys == old(index.entries[p].keys)
      ensures SameOutside(old(chip.mem), chip.mem, base, size)
    {
      hide AsMap, Agree, Packed, Start, HeapOf, ReadWord, Bindings, SameOutside, Distinct;
      ghost var k, m := index.entries[p].keys, index.Map();
      AsMapAt(index.Live(), p);
      NothingOutsideChanged(chip.mem, base, size);
      var data := index.GetData(p);
      if data.Program? {
        ProgramDropped(m, blocks, Heap(), k);
      } else {
        ghost var i := BlockOf(m, blocks, None, k);
        DeleteMacro(data.offset, k, i);
      }
    }

    method Settle(ghost k: Keys, ghost bound: map<Keys, Content>)
      requires ConsistentExcept(k, bound)
      modifies chip`cycle
      ensures ConsistentExcept(k, bound) && chip.Ready()
    {
      hide Agree, Bindings, Packed, AsMap, WellFormed, ReadWord;
      chip.WaitForLastWriteEnd();
    }

    // ---- recording ----

    /** A fresh index entry for an unbound key; none, and no change, when the index is full. */
    method NewEntry(key: Keys) returns (r: Option<nat>)
      requires Valid() && macro.None? && key[0] != NO_KEY && key !in index.Map()
      modifies index`count, index.entries
      ensures r.None? <==> old(index.count) == index.entries.Length
      ensures r.None? ==> Valid() && index.entries[..] == old(index.entries[..]) && Bound() == old(Bound())
      ensures r.Some? ==> index.Valid() && r.value < index.entries.Length && r.value < index.count
                          && index.entries[r.value].keys == key
      ensures r.Some? ==> ConsistentExcept(key, old(Bound()))
    {
      hide Agree, Bindings, HeapValid, HeapOf, AsMap, WellFormed;
      ghost var m := index.Map();
      r := index.Create(key);
      if r.Some? {
        UpdateThenDelete(m, key, index.entries[r.value].val);
      } else {
        assert index.Map() == m;
      }
    }

    /** Points entry p, whose key is otherwise unbound, at the end of the heap. */
    method BeginRecording(p: nat, ghost k: Keys, ghost bound: map<Keys, Content>)
      requires index.Valid() && p < index.count && p < index.entries.Length && index.entries[p].keys == k
      requires macro.None? && chip.Ready()
      requires ConsistentExcept(k, bound)
      modifies this`macro, this`cursor, this`entry, index.entries
      ensures Valid() && Pending() == Some(k) && Recorded() == [] && Bound() == bound
    {
      hide Agree, Bindings, Packed, HeapOf, AsMap, WellFormed, ReadWord, Total;
      ghost var m := index.Map();
      EndFits(Heap(), blocks, size);
      var end := chip.ReadWordAt(base);
      PendingBegins(m - {k}, blocks, Heap(), k);
      assert (m - {k})[k := Total(blocks)] == m[k := Total(blocks)];
      index.SetData(p, Macro(end));
      macro, cursor, entry := Some(end), end + HEADER, p;
      assert Recorded() == [];
    }

    /**
     * Starts recording a macro for a key combination, dropping what it was bound to. Fails,
     * changing nothing, exactly when the key is new and the index is full.
     */
    method StartMacro(key: Keys) returns (ok: bool)
      requires Valid() && macro.None? && chip.Ready() && key[0] != NO_KEY
      modifies this, chip, index`count, index.entries
      ensures Valid()
      ensures ok <==> key in old(Bound()) || |old(Bound())| < index.entries.Length
      ensures !ok ==> macro.None? && chip.mem == old(chip.mem) && index.entries[..] == old(index.entries[..])
      ensures !ok ==> Bound() == old(Bound())
      ensures ok ==> Pending() == Some(key) && Recorded() == [] && Bound() == old(Bound()) - {key}
      ensures SameOutside(old(chip.mem), chip.mem, base, size)
    {
      hide HeapValid, WellFormed, AsMap, Agree, Bindings, HeapOf, SameOutside;
      ghost var bound := Bound();
      UnboundKeysNotBound(key);
      NothingOutsideChanged(chip.mem, base, size);
      var found := index.Lookup(key);
      if found.Some? {
        DeleteMacroData(found.value);
        Settle(key, bound - {key});
        BeginRecording(found.value, key, bound - {key});
        ok := true;
      } else {
        var created := NewEntry(key);
        if created.Some? {
          BeginRecording(created.value, key, bound);
          ok := true;
        } else {
          macro, cursor, entry := None, 0, 0;
          ok := false;
        }
      }
    }

    /** Removes the index entry of the macro being recorded. */
    method DropRecording()
      requires Valid() && macro.Some?
      modifies index`count, index.entries
      ensures ConsistentWithout(old(Bound()))
    {
      hide Agree, Packed, AsMap, WellFormed, Bindings, HeapOf, ReadWord;
      ghost var m, k := index.Map(), Pending().value;
      PendingDropped(m, blocks, Heap(), k);
      index.Remove(entry);
    }

    /** Writes the length word in front of the events and moves the end offset behind them. */
    method WriteLengthAndEnd(at: nat, length: nat)
      requires Region() && at + HEADER <= size - 2 && ReadWord(chip.mem, base) + length + HEADER < 0x1_0000
      modifies chip
      ensures Region() && Heap() == Splice(old(Heap()), at, WordBytes(length))
      ensures ReadWord(chip.mem, base) == old(ReadWord(chip.mem, base)) + length + HEADER
      ensures SameOutside(old(chip.mem), chip.mem, base, size)
    {
      hide HeapOf, ReadWord, Splice, SameOutside;
      ghost var before := chip.mem;
      WriteHeap(at, WordBytes(length));
      ghost var mid := chip.mem;
      chip.WaitForLastWriteEnd();
      var end := chip.ReadWordAt(base);
      WriteEnd(end + length + HEADER);
      OutsideTwice(before, mid, chip.mem, base, size);
    }

    lemma RecordingFacts()
      requires Valid() && macro.Some? && cursor > macro.value + HEADER
      ensures var at, k := macro.value, Pending().value;
              at == Total(blocks) == ReadWord(chip.mem, base) && cursor <= size - 2 < 0x8000
              && Agree(index.Map(), blocks, Some(k)) && Packed(Heap(), blocks)
              && |Recorded()| == cursor - (at + HEADER) && Heap()[at + HEADER..at + HEADER + |Recorded()|] == Recorded()
    {
    }

    method KeepRecording(length: nat)
      requires Valid() && macro.Some? && length == cursor - (macro.value + HEADER) > 0
      modifies this`blocks, chip
      ensures ConsistentWithout(old(Bound())[old(Pending()).value := Events(old(Recorded()))])
      ensures SameOutside(old(chip.mem), chip.mem, base, size)
    {
      hide Agree, AsMap, WellFormed, Bindings, HeapOf, ReadWord, Splice, Start, Packed, MacroBytes, Recorded,
           SameOutside;
      ghost var m, k, heap, events := index.Map(), Pending().value, Heap(), Recorded();
      RecordingFacts();
      WriteLengthAndEnd(macro.value, length);
      RecordingCommitted(m, blocks, heap, k, events, Heap());
      blocks := blocks + [Block(k, MacroBytes(events))];
    }

    /** The store is consistent with nothing being recorded. */
    ghost predicate ConsistentWithout(bound: map<Keys, Content>)
      reads this`blocks, chip, index, index.entries
    {
      && HeapValid() && index.Valid()
      && Agree(index.Map(), blocks, None)
      && Bindings(index.Map(), Heap(), None) == bound
    }

    lemma UnboundKeysNotBound(key: Keys)
      requires Valid() && macro.None?
      ensures key in Bound() <==> key in index.Map()
      ensures key !in index.Map() ==> Bound() - {key} == Bound()
      ensures |Bound()| == index.count <= index.entries.Length && base + size <= |chip.mem|
    {
      hide Agree, Packed, Sorted, AsMap, Binding, HeapOf, ReadWord;
      CountFits(index.entries[..], index.count);
      LiveSorted(index.entries[..], index.count);
      AsMapSize(index.Live());
      assert Bound().Keys == index.Map().Keys;
    }

    /**
     * Records one event behind the others. There is no check for room: the byte goes where the
     * cursor points, and it stays in the macro region exactly when there is room.
     */
    method Append(event: Byte)
      requires Valid() && macro.Some? && base + 2 + cursor < |chip.mem|
      modifies this`cursor, chip
      ensures chip.Closed() && chip.mem == old(chip.mem)[base + 2 + old(cursor) := event] && cursor == old(cursor) + 1
      ensures old(HasRoom()) ==>
                Valid() && Pending() == old(Pending()) && Bound() == old(Bound())
                && Recorded() == old(Recorded()) + [event]
      ensures !old(HasRoom()) ==> base + size <= |chip.mem| && Heap() == old(Heap())
      ensures SameOutside(old(chip.mem), chip.mem, base, size) <==>
                old(HasRoom()) || old(chip.mem)[base + 2 + old(cursor)] == event
    {
      hide Agree, Packed, AsMap, WellFormed, Splice, HeapOf, ReadWord, SameOutside;
      ghost var heap, from, at := Heap(), macro.value + HEADER, base + 2 + cursor;
      SpliceOne(chip.mem, at, event);
      if cursor < size - 2 {
        HeapWrite(chip.mem, base, size, at, cursor, [event]);
        RecordingKeepsBlocks(heap, blocks, cursor, [event], index.Map(), Pending());
        SliceExtended(heap, from, cursor, event);
      } else {
        WriteBehind(chip.mem, base, size, at, event);
      }
      var _ := chip.Write(base + 2 + cursor, [event]);
      cursor := cursor + 1;
    }

    /** Ends the recording: events bind the key to them, none remove the key from the index. */
    method CommitMacro()
      requires Valid()
      modifies this, chip, index`count, index.entries
      ensures Valid() && macro.None?
      ensures old(macro).None? ==> chip.mem == old(chip.mem) && Bound() == old(Bound())
      ensures old(macro).Some? ==>
                Bound() == if old(Recorded()) == [] then old(Bound())
                           else old(Bound())[old(Pending()).value := Events(old(Recorded()))]
      ensures SameOutside(old(chip.mem), chip.mem, base, size)
    {
      hide Agree, Packed, AsMap, WellFormed, Splice, HeapOf, ReadWord, SameOutside;
      NothingOutsideChanged(chip.mem, base, size);
      if macro.None? {
        return;
      }
      var length := cursor - (macro.value + HEADER);
      if length == 0 {
        DropRecording();
      } else {
        KeepRecording(length);
      }
      macro, cursor, entry := None, 0, 0;
    }

    method AbortMacro()
      requires Valid() && macro.Some?
      modifies this, index`count, index.entries
      ensures Valid() && macro.None? && Bound() == old(Bound())
    {
      hide Agree, Packed, AsMap, WellFormed, Splice, HeapOf, ReadWord;
      DropRecording();
      macro, cursor, entry := None, 0, 0;
    }

    // ---- whole runs ----

    /** The store as its user sees it. */
    ghost function View(): Session
      requires Valid()
      reads this, chip, index, index.entries
    {
      Session(Bound(), if macro.Some? then Some(Take(Pending().value, Recorded())) else None,
              DefaultBindings(defs, |defs|))
    }

    method Perform(op: Op)
      requires Valid() && chip.Ready() && Allowed(View(), op) && (op.Append? ==> HasRoom())
      modifies this, chip, index`count, index.entries
      ensures Valid() && View() == Step(old(View()), op, index.entries.Length)
      ensures SameOutside(old(chip.mem), chip.mem, base, size)
    {
      hide HeapValid, WellFormed, AsMap, Agree, Bindings, HeapOf, SameOutside, Bound;
      RegionFits();
      NothingOutsideChanged(chip.mem, base, size);
      match op
      case StartMacro(key) => var _ := StartMacro(key);
      case Append(event) => Append(event);
      case CommitMacro => CommitMacro();
      case AbortMacro => AbortMacro();
      case ResetFully => ResetFully();
    }

    /**
     * Every run of the store, for as long as the operations come in order and recorded events
     * fit, refines the run on the user's view. Key presses leave the chip time to finish writing.
     */
    method Run(ops: seq<Op>) returns (n: nat)
      requires Valid()
      modifies this, chip, index`count, index.entries
      ensures n <= |ops| && Valid() && View() == RunAll(old(View()), ops[..n], index.entries.Length)
      ensures n < |ops| ==> !Allowed(View(), ops[n]) || (ops[n].Append? && !HasRoom())
      ensures SameOutside(old(chip.mem), chip.mem, base, size)
    {
      hide HeapValid, WellFormed, AsMap, Agree, Bindings, HeapOf, SameOutside, Bound, View, Valid;
      RegionFits();
      n := 0;
      ghost var before, view := chip.mem, View();
      NothingOutsideChanged(chip.mem, base, size);
      while n < |ops|
        invariant n <= |ops| && Valid() && View() == RunAll(view, ops[..n], index.entries.Length)
        invariant SameOutside(before, chip.mem, base, size)
      {
        InOrderIsAllowed(ops[n]);
        if !InOrder(ops[n]) || (ops[n].Append? && cursor >= size - 2) {
          return;
        }
        assert ops[..n + 1][..n] == ops[..n];
        ghost var mid := chip.mem;
        Rest();
        Perform(ops[n]);
        OutsideTwice(before, mid, chip.mem, base, size);
        n := n + 1;
      }
    }

    lemma RegionFits()
      requires Valid()
      ensures base + size <= |chip.mem|
    {
    }

    lemma InOrderIsAllowed(op: Op)
      requires Valid()
      ensures InOrder(op) <==> Allowed(View(), op)
    {
    }

    predicate InOrder(op: Op)
      reads this
    {
      match op
      case StartMacro(key) => macro.None? && key[0] != NO_KEY
      case Append(_) => macro.Some?
      case CommitMacro => true
      case AbortMacro => macro.Some?
      case ResetFully => macro.None?
    }

    /** Time passes until the chip is done writing. */
    method Rest()
      requires Valid()
      modifies chip`cycle
      ensures Valid() && chip.Ready() && View() == old(View())
    {
      hide Agree, Bindings, Packed, AsMap, WellFormed, ReadWord, HeapOf;
      chip.WaitForLastWriteEnd();
    }

    /** A macro binding is what lies at the offset the index holds. */
    lemma BoundMacro(key: Keys)
      requires Valid() && key in Bound() && Bound()[key].Events?
      ensures key in index.Map() && index.Map()[key] < 0x8000
      ensures var at := index.Map()[key];
              at + HEADER <= size - 2 && at + HEADER + ReadWord(Heap(), at) <= size - 2
              && ReadMacro(Heap(), at) == Bound()[key].events
    {
      hide AsMap, WellFormed, HeapOf, ReadMacro;
      var i := BlockOf(index.Map(), blocks, Pending(), key);
      BindingOfBlock(index.Map(), blocks, Heap(), i);
      BlockFits(blocks, i);
      assert InPlace(Heap(), blocks, i);
      assert Heap()[index.Map()[key]..index.Map()[key] + |blocks[i].data|] == blocks[i].data;
      assert blocks[i].data[0] == Heap()[index.Map()[key]] && blocks[i].data[1] == Heap()[index.Map()[key] + 1];
    }

    lemma MappedAt(p: nat)
      requires Valid() && p < index.count && p < index.entries.Length
      ensures index.entries[p].keys in index.Map() && index.Map()[index.entries[p].keys] == index.entries[p].val
    {
      AsMapAt(index.Live(), p);
    }

    /** In every state of every run the macros in the index tile the heap below the end offset. */
    lemma Tiled(x: nat)
      requires Valid()
      ensures x < ReadWord(chip.mem, base) <==>
              exists k :: !IsPending(Pending(), k) && Owns(index.Map(), Heap(), k, x)
      ensures forall k, k' | !IsPending(Pending(), k) && !IsPending(Pending(), k') ::
                Owns(index.Map(), Heap(), k, x) && Owns(index.Map(), Heap(), k', x) ==> k == k'
      ensures macro.Some? ==> Pending().value in index.Map()
                              && index.Map()[Pending().value] == ReadWord(chip.mem, base)
    {
      hide AsMap, WellFormed, HeapOf, Packed, Owns, ReadMacro;
      var m, bs, heap, p := index.Map(), blocks, Heap(), Pending();
      MacrosCoverHeap(m, bs, p, heap, x);
      forall k, k' | !IsPending(p, k) && !IsPending(p, k') && Owns(m, heap, k, x) && Owns(m, heap, k', x)
        ensures k == k'
      {
        MacrosDoNotOverlap(m, bs, p, heap, k, k', x);
      }
    }
  }
}
