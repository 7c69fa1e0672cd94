/**
 * Saving and loading layouts (config.c). The slot index and the records live in the SPI EEPROM,
 * the mapping in force in the internal EEPROM.
 */
module SavedLayouts {
  import opened Bytes
  import opened PagedMemory
  import opened Packing
  import opened LayoutTheory
  import opened LayoutSession
  import SpiEeprom

  const INDEX_BYTES: nat := 2 * SLOT_COUNT

  // ---- the two tables in memory ----

  /** Where the slot index and the record table lie. */
  datatype Place = Place(index: nat, records: nat, capacity: nat)

  ghost predicate PlaceFits(p: Place, mem: seq<Byte>) {
    && 0 < p.capacity <= 0x100
    && p.index + INDEX_BYTES <= |mem| && p.records + 2 * p.capacity <= |mem|
    && (p.index + INDEX_BYTES <= p.records || p.records + 2 * p.capacity <= p.index)
  }

  function Slots(mem: seq<Byte>, p: Place): (ix: seq<Pair>)
    requires PlaceFits(p, mem)
    ensures |ix| == SLOT_COUNT
  {
    PairsOf(mem, p.index, SLOT_COUNT)
  }

  function Records(mem: seq<Byte>, p: Place): (r: seq<Pair>)
    requires PlaceFits(p, mem)
    ensures |r| == p.capacity
  {
    PairsOf(mem, p.records, p.capacity)
  }

  ghost predicate Inside(p: Place, x: int) {
    p.index <= x < p.index + INDEX_BYTES || p.records <= x < p.records + 2 * p.capacity
  }

  /** Memory outside the two tables is untouched. */
  ghost predicate SameElsewhere(a: seq<Byte>, b: seq<Byte>, p: Place) {
    |a| == |b| && forall x :: 0 <= x < |a| && !Inside(p, x) ==> a[x] == b[x]
  }

  lemma ElsewhereTwice(a: seq<Byte>, b: seq<Byte>, c: seq<Byte>, p: Place)
    requires SameElsewhere(a, b, p) && SameElsewhere(b, c, p)
    ensures SameElsewhere(a, c, p)
  {
  }

  lemma ElsewhereSame(a: seq<Byte>, p: Place)
    ensures SameElsewhere(a, a, p)
  {
  }

  lemma PairBytes(p: Pair)
    ensures WordBytes(MakeWord(p.lo, p.hi)) == [p.lo, p.hi]
  {
    WordParts(p.lo, p.hi);
  }

  lemma SlotWritten(mem: seq<Byte>, p: Place, i: nat, at: nat, r: Pair)
    requires PlaceFits(p, mem) && i < SLOT_COUNT && at == p.index + 2 * i
    ensures var now := Splice(mem, at, [r.lo, r.hi]);
            PlaceFits(p, now) && Slots(now, p) == Slots(mem, p)[i := r] && Records(now, p) == Records(mem, p)
            && SameElsewhere(mem, now, p)
  {
    hide PairsOf;
    PairWritten(mem, p.index, SLOT_COUNT, i, at, r);
    PairsElsewhere(mem, p.records, p.capacity, at, [r.lo, r.hi]);
  }

  lemma RecordWritten(mem: seq<Byte>, p: Place, i: nat, at: nat, r: Pair)
    requires PlaceFits(p, mem) && i < p.capacity && at == p.records + 2 * i
    ensures var now := Splice(mem, at, [r.lo, r.hi]);
            PlaceFits(p, now) && Records(now, p) == Records(mem, p)[i := r] && Slots(now, p) == Slots(mem, p)
            && SameElsewhere(mem, now, p)
  {
    hide PairsOf;
    PairWritten(mem, p.records, p.capacity, i, at, r);
    PairsElsewhere(mem, p.index, SLOT_COUNT, at, [r.lo, r.hi]);
  }

  lemma RecordsMoved(mem: seq<Byte>, p: Place, gap: nat, rest: nat, end: nat, dst: nat, src: nat, len: nat)
    requires PlaceFits(p, mem) && gap <= rest <= end <= p.capacity
    requires dst == p.records + 2 * gap && src == p.records + 2 * rest && len == 2 * (end - rest)
    ensures var now := Splice(mem, dst, mem[src..src + len]);
            PlaceFits(p, now) && Records(now, p) == ClosedUp(Records(mem, p), gap, rest, end)
            && Slots(now, p) == Slots(mem, p) && SameElsewhere(mem, now, p)
  {
    hide PairsOf, ClosedUp;
    PairsMoved(mem, p.records, p.capacity, gap, rest, end, dst, src, len);
    PairsElsewhere(mem, p.index, SLOT_COUNT, dst, mem[src..src + len]);
  }

  lemma SlotsCleared(mem: seq<Byte>, p: Place)
    requires PlaceFits(p, mem)
    ensures var now := Splice(mem, p.index, Fill(NO_KEY, INDEX_BYTES));
            PlaceFits(p, now) && Slots(now, p) == seq(SLOT_COUNT, _ => NO_RANGE) && SameElsewhere(mem, now, p)
  {
  }

  predicate Covers(r: Pair, x: nat) {
    r.lo != NO_KEY && r.lo <= x <= r.hi
  }

  // ---- one iteration of the range shift ----

  lemma RangeCleared(ix: seq<Pair>, num: nat, end: int, len: nat)
    requires |ix| == SLOT_COUNT && num < SLOT_COUNT
    ensures RangesShifted(ix, ix[num := NO_RANGE], num, end, len, 0)
  {
  }

  lemma ShiftStep(before: seq<Pair>, ix: seq<Pair>, num: nat, end: int, len: nat, i: nat)
    requires i < SLOT_COUNT && RangesShifted(before, ix, num, end, len, i) && num < SLOT_COUNT
    requires before[num].lo as int <= end
    ensures var r := ix[i];
            After(r, end) <==> After(before[i], end)
    ensures After(ix[i], end) ==> ix[i] == before[i]
    ensures RangesShifted(before, if After(ix[i], end)
                          then ix[i := Pair(Wrap8(ix[i].lo as int - len), Wrap8(ix[i].hi as int - len))] else ix,
                          num, end, len, i + 1)
  {
  }

  lemma SeenStep(before: seq<Pair>, end: int, i: nat, n: int)
    requires i < |before| && HighestEnd(before, end, i, n)
    ensures HighestEnd(before, end, i + 1, if After(before[i], end) && before[i].hi as int > n then before[i].hi else n)
  {
  }

  lemma NoRangeSeen(before: seq<Pair>, end: int)
    ensures HighestEnd(before, end, 0, end)
  {
  }

  /** With nothing behind the gap, closing it moves nothing. */
  lemma NothingBehind(records: seq<Pair>, gap: nat, rest: nat)
    requires gap <= rest <= |records|
    ensures ClosedUp(records, gap, rest, rest) == records
  {
  }

  // ---- writing records one by one ----

  /** The records r have been written from `start` on; those before are as they were. */
  ghost predicate RecordsWritten(before: seq<Pair>, now: seq<Pair>, start: nat, r: seq<Pair>) {
    && |now| == |before| && start + |r| <= |now|
    && now[..start] == before[..start] && now[start..start + |r|] == r
  }

  lemma NothingWritten(before: seq<Pair>, start: nat, d: Layout, m: Layout)
    requires start <= |before| && |d| == |m| <= 0xFF
    ensures Diff(d, m, 0) == [] && RecordsWritten(before, before, start, [])
  {
  }

  lemma RecordsStep(before: seq<Pair>, now: seq<Pair>, start: nat, r: seq<Pair>, p: Pair)
    requires RecordsWritten(before, now, start, r) && start + |r| < |now|
    ensures RecordsWritten(before, now[start + |r| := p], start, r + [p])
  {
  }

  lemma RecordsKept(before: seq<Pair>, now: seq<Pair>, start: nat, r: seq<Pair>)
    requires RecordsWritten(before, now, start, r)
    ensures |now| == |before| && start + |r| <= |now|
    ensures now[..start] == before[..start] && now[start..start + |r|] == r && RecordsWritten(before, now, start, [])
  {
  }

  lemma DiffGrows(d: Layout, m: Layout, l: nat)
    requires l < |d| == |m| <= 0xFF
    ensures Diff(d, m, l + 1) == if m[l] != d[l] then Diff(d, m, l) + [Pair(l, m[l])] else Diff(d, m, l)
    ensures |Diff(d, m, l + 1)| <= |AllDiffs(d, m)|
  {
    DiffSplits(d, m, l + 1, |d|);
  }

  lemma NothingDiffers(d: Layout, m: Layout)
    requires |d| == |m| <= 0xFF
    ensures Diff(d, m, 0) == []
  {
  }

  class Layouts {
    const chip: SpiEeprom.Chip
    const place: Place
    const defaults: Layout              // the default code of every logical key
    const mapping: array<Byte>          // the layout in force
    ghost var blocks: seq<SlotBlock>
    ghost var saved: map<nat, Layout>

    ghost predicate Region()
      reads chip
    {
      chip.Closed() && PlaceFits(place, chip.mem) && mapping.Length == |defaults| <= 0xFF
    }

    ghost function SlotTable(): (ix: seq<Pair>)
      requires PlaceFits(place, chip.mem)
      reads chip
      ensures |ix| == SLOT_COUNT
    {
      Slots(chip.mem, place)
    }

    ghost function RecordTable(): (r: seq<Pair>)
      requires PlaceFits(place, chip.mem)
      reads chip
      ensures |r| == place.capacity
    {
      Records(chip.mem, place)
    }

    /** The ranges tile the records below a total of at most capacity - 1, each holding its layout's differences. */
    ghost predicate Valid()
      reads this, chip
    {
      && Region()
      && IndexAgrees(SlotTable(), blocks) && Packed(RecordTable(), blocks) && Total(blocks) < place.capacity
      && Holds(defaults, blocks, saved)
    }

    ghost function View(): State
      reads this, mapping
    {
      State(mapping[..], saved)
    }

    constructor (chip: SpiEeprom.Chip, place: Place, defaults: Layout, mapping: array<Byte>)
      requires chip.Closed() && PlaceFits(place, chip.mem) && mapping.Length == |defaults| <= 0xFF
      modifies chip
      ensures Valid() && saved == map[] && SameElsewhere(old(chip.mem), chip.mem, place)
      ensures this.chip == chip && this.place == place && this.defaults == defaults && this.mapping == mapping
    {
      this.chip, this.place, this.defaults, this.mapping := chip, place, defaults, mapping;
      blocks, saved := [], map[];
      new;
      ForgetAll();
    }

    /** Clears the slot index, whatever it held. */
    method ForgetAll()
      requires Region()
      modifies this`blocks, this`saved, chip
      ensures Valid() && saved == map[] && SameElsewhere(old(chip.mem), chip.mem, place)
    {
      SlotsCleared(chip.mem, place);
      chip.MemSet(place.index, NO_KEY, INDEX_BYTES);
      blocks, saved := [], map[];
    }

    // ---- reading and writing table entries ----

    method ReadByte(addr: nat) returns (b: Byte)
      requires chip.Ready() && addr < |chip.mem|
      ensures b == chip.mem[addr]
    {
      var data := chip.Read(addr, 1);
      b := data[0];
    }

    method ReadSlotStart(i: nat) returns (b: Byte)
      requires Region() && chip.Ready() && i < SLOT_COUNT
      ensures b == SlotTable()[i].lo
    {
      b := ReadByte(place.index + 2 * i);
    }

    method ReadSlotEnd(i: nat) returns (b: Byte)
      requires Region() && chip.Ready() && i < SLOT_COUNT
      ensures b == SlotTable()[i].hi
    {
      b := ReadByte(place.index + 2 * i + 1);
    }

    method ReadRecord(i: nat) returns (r: Pair)
      requires Region() && chip.Ready() && i < place.capacity
      ensures r == RecordTable()[i]
    {
      var w := chip.ReadWordAt(place.records + 2 * i);
      r := Pair(Lo(w), Hi(w));
    }

    method WriteSlot(i: nat, r: Pair)
      requires Region() && i < SLOT_COUNT
      modifies chip
      ensures Region() && SlotTable() == old(SlotTable())[i := r] && RecordTable() == old(RecordTable())
      ensures SameElsewhere(old(chip.mem), chip.mem, place)
    {
      hide Slots, Records, Splice, SameElsewhere;
      var at := place.index + 2 * i;
      PairBytes(r);
      SlotWritten(chip.mem, place, i, at, r);
      chip.WriteShort(at, MakeWord(r.lo, r.hi));
    }

    method WriteRecord(i: nat, r: Pair)
      requires Region() && i < place.capacity
      modifies chip
      ensures Region() && RecordTable() == old(RecordTable())[i := r] && SlotTable() == old(SlotTable())
      ensures SameElsewhere(old(chip.mem), chip.mem, place)
    {
      hide Slots, Records, Splice, SameElsewhere;
      var at := place.records + 2 * i;
      PairBytes(r);
      RecordWritten(chip.mem, place, i, at, r);
      chip.WriteShort(at, MakeWord(r.lo, r.hi));
    }

    method MoveRecordsDown(gap: nat, rest: nat, end: nat)
      requires Region() && gap <= rest <= end <= place.capacity
      modifies chip
      ensures Region() && RecordTable() == ClosedUp(old(RecordTable()), gap, rest, end)
      ensures SlotTable() == old(SlotTable())
      ensures SameElsewhere(old(chip.mem), chip.mem, place)
    {
      hide Slots, Records, Splice, SameElsewhere, ClosedUp;
      var dst, src, len := place.records + 2 * gap, place.records + 2 * rest, 2 * (end - rest);
      RecordsMoved(chip.mem, place, gap, rest, end, dst, src, len);
      chip.MemMove(dst, src, len);
    }

    // ---- deleting ----

    /** Lowers the range of slot i if it lies behind the deleted one. */
    method ShiftRange(num: nat, end: Byte, length: Byte, i: nat, seen: Byte,
                      ghost before: seq<Pair>) returns (maxEnd: Byte)
      requires Region() && num < SLOT_COUNT == |before| && i < SLOT_COUNT && before[num].lo <= end <= seen
      requires RangesShifted(before, SlotTable(), num, end, length, i) && HighestEnd(before, end, i, seen)
      modifies chip
      ensures Region() && maxEnd >= end
      ensures RangesShifted(before, SlotTable(), num, end, length, i + 1) && HighestEnd(before, end, i + 1, maxEnd)
      ensures RecordTable() == old(RecordTable()) && SameElsewhere(old(chip.mem), chip.mem, place)
    {
      hide Slots, Records, SameElsewhere, RangesShifted, HighestEnd, ShiftedRange;
      ghost var ix := SlotTable();
      ElsewhereSame(chip.mem, place);
      ShiftStep(before, ix, num, end, length, i);
      SeenStep(before, end, i, seen);
      maxEnd := seen;
      chip.WaitForLastWriteEnd();
      var lo := ReadSlotStart(i);
      if lo != NO_KEY && lo > end {
        var hi := ReadSlotEnd(i);
        if hi > maxEnd {
          maxEnd := hi;
        }
        WriteSlot(i, Pair(Wrap8(lo as int - length as int), Wrap8(hi as int - length as int)));
      }
    }

    /**
     * Lowers the ranges behind the deleted one by its length, and finds where the last of them
     * ended. The deleted slot has already been cleared.
     */
    method ShiftRanges(num: nat, end: Byte, length: Byte, ghost before: seq<Pair>) returns (maxEnd: Byte)
      requires Region() && num < SLOT_COUNT == |before| && before[num].lo <= end
      requires RangesShifted(before, SlotTable(), num, end, length, 0)
      modifies chip
      ensures Region() && RangesShifted(before, SlotTable(), num, end, length, SLOT_COUNT)
      ensures HighestEnd(before, end, SLOT_COUNT, maxEnd) && maxEnd >= end
      ensures RecordTable() == old(RecordTable()) && SameElsewhere(old(chip.mem), chip.mem, place)
    {
      hide Slots, Records, SameElsewhere, RangesShifted, HighestEnd, ShiftedRange;
      ghost var mem := chip.mem;
      ElsewhereSame(mem, place);
      NoRangeSeen(before, end);
      maxEnd := end;
      var i := 0;
      while i < SLOT_COUNT
        invariant 0 <= i <= SLOT_COUNT && Region() && maxEnd >= end
        invariant RangesShifted(before, SlotTable(), num, end, length, i) && HighestEnd(before, end, i, maxEnd)
        invariant RecordTable() == old(RecordTable()) && SameElsewhere(mem, chip.mem, place)
      {
        ghost var mid := chip.mem;
        maxEnd := ShiftRange(num, end, length, i, maxEnd, before);
        ElsewhereTwice(mem, mid, chip.mem, place);
        i := i + 1;
      }
    }

    /** Deletes the layout of a slot; reports whether there was one. */
    method DeleteLayout(num: nat) returns (ok: bool)
      requires Valid() && chip.Ready()
      modifies chip, this`blocks, this`saved
      ensures Valid() && chip.Ready()
      ensures ok <==> num in old(saved)
      ensures saved == old(saved) - {num}
      ensures SameElsewhere(old(chip.mem), chip.mem, place) && (!ok ==> chip.mem == old(chip.mem))
    {
      hide Slots, Records, SameElsewhere, RangesShifted, HighestEnd, ShiftedRange, IndexAgrees, Packed, Holds, Start,
           Distinct, SlotPlaced;
      ElsewhereSame(chip.mem, place);
      SavedSlots(num);
      if num >= SLOT_COUNT {
        return false;
      }
      var start := ReadSlotStart(num);
      if start == NO_KEY {
        return false;
      }
      ghost var j := SavedBlock(num);
      var end := ReadSlotEnd(num);
      RemoveRange(num, start, end, j);
      HoldsWithout(defaults, blocks, saved, j);
      TotalWithout(blocks, j);
      blocks, saved := Without(blocks, j), saved - {num};
      ok := true;
    }

    lemma SavedSlots(num: nat)
      requires Valid()
      ensures num in saved <==> num < SLOT_COUNT && SlotTable()[num].lo != NO_KEY
      ensures num !in saved ==> saved - {num} == saved
    {
      hide Slots, AllDiffs, Start, SlotPlaced;
      if num < SLOT_COUNT {
        if SlotTable()[num].lo == NO_KEY {
          EmptySlot(SlotTable(), blocks, num);
        } else {
          var _ := UsedSlot(SlotTable(), blocks, num);
        }
      }
    }

    lemma SavedBlock(num: nat) returns (j: nat)
      requires Valid() && num in saved
      ensures num < SLOT_COUNT && j < |blocks| && blocks[j].key == num
      ensures blocks[j].data == AllDiffs(defaults, saved[num])
      ensures var r := SlotTable()[num];
              r.lo as int == Start(blocks, j) && r.lo <= r.hi && r.hi as int + 1 == Start(blocks, j) + |blocks[j].data|
              && r.hi as int + 1 <= Total(blocks) < place.capacity
      ensures blocks[j].data != []
      ensures RecordTable()[SlotTable()[num].lo..SlotTable()[num].hi as int + 1] == blocks[j].data
    {
      hide Slots, Records, AllDiffs, Start;
      SavedSlots(num);
      j := UsedSlot(SlotTable(), blocks, num);
      assert HoldsAt(defaults, blocks[j], saved) && InPlace(RecordTable(), blocks, j);
      BlockFits(blocks, j);
    }

    /** Takes the range of block j out of the index and its records out of the table. */
    method RemoveRange(num: nat, start: Byte, end: Byte, ghost j: nat)
      requires Valid() && num < SLOT_COUNT && SlotTable()[num] == Pair(start, end) && start <= end
      requires j < |blocks| && blocks[j].key == num && end as int + 1 <= Total(blocks)
      requires start as int == Start(blocks, j) && end as int + 1 == Start(blocks, j) + |blocks[j].data|
      modifies chip
      ensures Region() && chip.Ready()
      ensures IndexAgrees(SlotTable(), Without(blocks, j)) && Packed(RecordTable(), Without(blocks, j))
      ensures SameElsewhere(old(chip.mem), chip.mem, place)
    {
      hide Slots, Records, SameElsewhere, RangesShifted, HighestEnd, ShiftedRange, IndexAgrees, Packed, Holds, Start,
           Distinct, SlotPlaced, ClosedUp;
      ghost var ix, records, mem := SlotTable(), RecordTable(), chip.mem;
      var length := Wrap8(end as int - start as int + 1);
      assert length as int == end as int - start as int + 1;
      RangeCleared(ix, num, end, length);
      WriteSlot(num, NO_RANGE);
      ghost var mid := chip.mem;
      var maxEnd := ShiftRanges(num, end, length, ix);
      ElsewhereTwice(mem, mid, chip.mem, place);
      EndBehind(ix, blocks, j, end, maxEnd);
      DeleteAgrees(ix, blocks, j, SlotTable());
      NothingBehind(records, start, end as int + 1);
      if end < maxEnd {
        chip.WaitForLastWriteEnd();
        mid := chip.mem;
        MoveRecordsDown(end as int + 1 - length as int, end as int + 1, maxEnd as int + 1);
        ElsewhereTwice(mem, mid, chip.mem, place);
      }
      PackedWithout(records, blocks, j, RecordTable());
      chip.WaitForLastWriteEnd();
    }

    // ---- saving ----

    /** The first record behind all saved layouts. */
    method FindEnd() returns (start: Byte)
      requires Valid() && chip.Ready()
      ensures start as int == Total(blocks)
    {
      hide Slots, Records, HighestEnd, IndexAgrees, Packed, Holds, Start;
      ghost var ix := SlotTable();
      var oldEnd: int := -1;
      NoRangeSeen(ix, -1);
      var i := 0;
      while i < SLOT_COUNT
        invariant 0 <= i <= SLOT_COUNT && HighestEnd(ix, -1, i, oldEnd)
      {
        SeenStep(ix, -1, i, oldEnd);
        var lo := ReadSlotStart(i);
        if lo != NO_KEY {
          var hi := ReadSlotEnd(i);
          if hi as int > oldEnd {
            oldEnd := hi;
          }
        }
        i := i + 1;
      }
      EndOfRanges(ix, blocks, oldEnd);
      start := Wrap8(oldEnd + 1);
    }

    /** Writes the differences of the mapping in force from `start` on, as far as there is room. */
    method WriteDiffs(start: Byte) returns (ok: bool, cursor: Byte)
      requires Region() && chip.Ready() && start < place.capacity
      modifies chip
      ensures Region() && chip.Ready()
      ensures var r := AllDiffs(defaults, mapping[..]);
              && (ok <==> start as int + |r| < place.capacity)
              && (ok ==> cursor as int == start as int + |r|)
              && RecordsWritten(old(RecordTable()), RecordTable(), start, if ok then r else [])
      ensures SlotTable() == old(SlotTable()) && SameElsewhere(old(chip.mem), chip.mem, place)
    {
      hide Slots, Records, SameElsewhere, Diff, RecordsWritten;
      ghost var before, mem, m, r := RecordTable(), chip.mem, mapping[..], AllDiffs(defaults, mapping[..]);
      ElsewhereSame(mem, place);
      NothingWritten(before, start, defaults, m);
      cursor := start;
      var l := 0;
      while l < |defaults|
        invariant 0 <= l <= |defaults| && Region() && chip.Ready() && mapping[..] == m
        invariant cursor as int == start as int + |Diff(defaults, m, l)| && cursor as int < place.capacity
        invariant RecordsWritten(before, RecordTable(), start, Diff(defaults, m, l))
        invariant SlotTable() == old(SlotTable()) && SameElsewhere(mem, chip.mem, place)
      {
        DiffGrows(defaults, m, l);
        if mapping[l] != defaults[l] {
          if cursor >= place.capacity - 1 {
            RecordsKept(before, RecordTable(), start, Diff(defaults, m, l));
            return false, cursor;
          }
          ghost var mid := chip.mem;
          RecordsStep(before, RecordTable(), start, Diff(defaults, m, l), Pair(l, mapping[l]));
          WriteRecord(cursor, Pair(l, mapping[l]));
          ElsewhereTwice(mem, mid, chip.mem, place);
          cursor := cursor + 1;
          chip.WaitForLastWriteEnd();
        }
        l := l + 1;
      }
      ok := true;
    }

    /** Enters freshly written records into the index. */
    method KeepLayout(num: nat, start: Byte, cursor: Byte)
      requires Valid() && num < SLOT_COUNT && num !in saved && start as int == Total(blocks)
      requires var r := AllDiffs(defaults, mapping[..]);
               r != [] && cursor as int == start as int + |r| < place.capacity && RecordTable()[start..cursor] == r
      modifies chip, this`blocks, this`saved
      ensures Valid() && saved == old(saved)[num := mapping[..]]
      ensures SameElsewhere(old(chip.mem), chip.mem, place)
    {
      hide Slots, Records, SameElsewhere, IndexAgrees, Packed, Holds, Start, Distinct, AllDiffs;
      ghost var r := AllDiffs(defaults, mapping[..]);
      NewSlot(num);
      PackedAppend(RecordTable(), blocks, Block(num, r), RecordTable());
      TotalAppend(blocks, Block(num, r));
      AppendAgrees(SlotTable(), blocks, num, r);
      HoldsAppend(defaults, blocks, saved, num, mapping[..]);
      WriteSlot(num, Pair(start, cursor - 1));
      blocks, saved := blocks + [Block(num, r)], saved[num := mapping[..]];
    }

    lemma NewSlot(num: nat)
      requires Valid() && num !in saved
      ensures num !in BlockKeys(blocks)
    {
    }

    /** Records written behind the saved ones leave the store as it is. */
    lemma StillValid(before: seq<Pair>, r: seq<Pair>)
      requires Region() && IndexAgrees(SlotTable(), blocks) && Packed(before, blocks) && Total(blocks) < place.capacity
      requires Holds(defaults, blocks, saved) && RecordsWritten(before, RecordTable(), Total(blocks), r)
      ensures Valid() && Total(blocks) + |r| <= place.capacity
      ensures RecordTable()[Total(blocks)..Total(blocks) + |r|] == r
    {
      hide Slots, Records, IndexAgrees, Packed, Holds, Start;
      RecordsKept(before, RecordTable(), Total(blocks), r);
      PackedPrefix(before, RecordTable(), blocks);
    }

    lemma CanSaveWhen(m: Layout, fits: bool)
      requires Valid() && |m| == |defaults| && fits == (Total(blocks) + |AllDiffs(defaults, m)| < place.capacity)
      ensures m == defaults <==> AllDiffs(defaults, m) == []
      ensures RecordsUsed(defaults, saved, SLOT_COUNT) + |AllDiffs(defaults, m)| < place.capacity <==> fits
    {
      hide Slots, Records, IndexAgrees, Packed, Holds, Start, Distinct, RecordsUsed;
      NoDiffIsDefault(defaults, m, |defaults|);
      UsedIsTotal(defaults, blocks, saved);
    }

    /**
     * Saves the mapping in force in a slot, replacing what the slot held. Fails, leaving the slot
     * empty, when it is the default layout or its differences do not fit.
     */
    method SaveLayout(num: nat) returns (ok: bool)
      requires Valid() && chip.Ready()
      modifies chip, this`blocks, this`saved
      ensures Valid()
      ensures ok <==> CanSave(defaults, old(View()), num, place.capacity)
      ensures saved == if ok then old(saved)[num := mapping[..]] else old(saved) - {num}
      ensures SameElsewhere(old(chip.mem), chip.mem, place)
    {
      hide Slots, Records, SameElsewhere, RecordsWritten, IndexAgrees, Packed, Holds, Start, Distinct, AllDiffs,
           RecordsUsed;
      ghost var mem := chip.mem;
      ElsewhereSame(mem, place);
      SavedSlots(num);
      if num >= SLOT_COUNT {
        return false;
      }
      var _ := DeleteLayout(num);
      var start := FindEnd();
      ghost var records, mid := RecordTable(), chip.mem;
      var fits, cursor := WriteDiffs(start);
      ElsewhereTwice(mem, mid, chip.mem, place);
      StillValid(records, if fits then AllDiffs(defaults, mapping[..]) else []);
      CanSaveWhen(mapping[..], fits);
      if !fits || start == cursor {
        return false;
      }
      mid := chip.mem;
      KeepLayout(num, start, cursor);
      ElsewhereTwice(mem, mid, chip.mem, place);
      ok := true;
    }

    // ---- loading ----

    /** The record in hand after `used` of the saved ones went into the mapping. */
    ghost predicate InHand(record: Pair, offset: int, start: nat, r: seq<Pair>, used: nat) {
      && used <= |r| && r != [] && record == Held(r, used)
      && offset == start + used + if used < |r| then 1 else 0
    }

    /** One pass over the keys and the records start..end of a saved layout. */
    method Merge(start: Byte, end: Byte, ghost m: Layout)
      requires Region() && chip.Ready() && |m| == |defaults| && start <= end && end as int < place.capacity
      requires RecordTable()[start..end as int + 1] == AllDiffs(defaults, m)
      modifies mapping
      ensures mapping[..] == m
    {
      hide Slots, Records, AllDiffs, Diff;
      ghost var r := AllDiffs(defaults, m);
      var offset: int := start;
      var record := ReadRecord(offset);
      offset := offset + 1;
      NothingDiffers(defaults, m);
      assert RecordTable()[start] == r[0];
      var l := 0;
      while l < |defaults|
        invariant 0 <= l <= |defaults| && InHand(record, offset, start, r, |Diff(defaults, m, l)|)
        invariant mapping[..l] == m[..l]
      {
        MergeStep(defaults, m, l);
        if l != record.lo {
          mapping[l] := defaults[l];
        } else {
          mapping[l] := record.hi;
          if offset <= end as int {
            record := ReadRecord(offset);
            assert record == r[offset - start];
            offset := offset + 1;
          }
        }
        l := l + 1;
      }
    }

    /** Puts a saved layout in force. */
    method LoadLayout(num: nat) returns (ok: bool)
      requires Valid() && chip.Ready()
      modifies mapping
      ensures Valid()
      ensures ok <==> num in saved
      ensures mapping[..] == if ok then saved[num] else old(mapping[..])
    {
      hide Slots, Records, IndexAgrees, Packed, Start, Distinct, AllDiffs, Holds;
      SavedSlots(num);
      if num >= SLOT_COUNT {
        return false;
      }
      var start := ReadSlotStart(num);
      if start == NO_KEY {
        return false;
      }
      ghost var j := SavedBlock(num);
      SavedLength(num);
      var end := ReadSlotEnd(num);
      Merge(start, end, saved[num]);
      ok := true;
    }

    lemma SavedLength(num: nat)
      requires Valid() && num in saved
      ensures |saved[num]| == |defaults|
    {
    }

    // ---- the mapping in force ----

    method Remap(key: Byte, code: Byte)
      requires Valid() && key as int < mapping.Length
      modifies mapping
      ensures Valid() && mapping[..] == old(mapping[..])[key := code]
    {
      mapping[key] := code;
    }

    /** Copies the default table, at most 32 bytes at a time. */
    method ResetMapping()
      requires Valid()
      modifies mapping
      ensures Valid() && mapping[..] == defaults
    {
      hide Slots, Records, IndexAgrees, Packed, Start, Distinct, AllDiffs, Holds;
      var i := 0;
      while i < |defaults|
        invariant 0 <= i <= |defaults| && mapping[..i] == defaults[..i]
      {
        var n := if |defaults| - i > 32 then 32 else |defaults| - i;
        var chunk := defaults[i..i + n];
        forall k | 0 <= k < n {
          mapping[i + k] := chunk[k];
        }
        i := i + n;
      }
    }

    // ---- whole runs ----

    method Perform(op: Op)
      requires Valid() && chip.Ready()
      modifies chip, mapping, this`blocks, this`saved
      ensures Valid() && View() == Step(defaults, old(View()), op, place.capacity)
      ensures SameElsewhere(old(chip.mem), chip.mem, place)
    {
      hide Slots, Records, IndexAgrees, Packed, Start, Distinct, AllDiffs, Holds, CanSave, SameElsewhere;
      ElsewhereSame(chip.mem, place);
      match op
      case Save(num) => var _ := SaveLayout(num);
      case Delete(num) => var _ := DeleteLayout(num);
      case Load(num) => var _ := LoadLayout(num);
      case Remap(key, code) =>
        if key < mapping.Length {
          Remap(key, code);
        }
      case Reset => ResetMapping();
    }

    lemma ViewWellformed()
      requires Valid()
      ensures Wellformed(defaults, View())
    {
    }

    /** Every run of the store refines the run on the user's view, however records moved in between. */
    method Run(ops: seq<Op>)
      requires Valid()
      modifies chip, mapping, this`blocks, this`saved
      ensures Valid() && Wellformed(defaults, old(View()))
      ensures View() == RunAll(defaults, old(View()), ops, place.capacity)
      ensures SameElsewhere(old(chip.mem), chip.mem, place)
    {
      hide Slots, Records, Valid, SameElsewhere, View, Wellformed, Step;
      ghost var before, view := chip.mem, View();
      ViewWellformed();
      ElsewhereSame(before, place);
      var n := 0;
      while n < |ops|
        invariant n <= |ops| && Valid() && View() == RunAll(defaults, view, ops[..n], place.capacity)
        invariant SameElsewhere(before, chip.mem, place)
      {
        assert ops[..n + 1][..n] == ops[..n];
        ghost var mid := chip.mem;
        Rest();
        Perform(ops[n]);
        ElsewhereTwice(before, mid, chip.mem, place);
        n := n + 1;
      }
      assert ops[..n] == ops;
    }

    /** Time passes until the chip is done writing. */
    method Rest()
      requires Valid()
      modifies chip`cycle
      ensures Valid() && chip.Ready() && View() == old(View())
    {
      hide IndexAgrees, Packed, Holds, Slots, Records;
      chip.WaitForLastWriteEnd();
    }

    // ---- what every reachable state satisfies ----

    /** The inclusive ranges of the used slots tile the records in use, and the last record is never one of them. */
    lemma RangesTile(x: nat)
      requires Valid()
      ensures RecordsUsed(defaults, saved, SLOT_COUNT) < place.capacity
      ensures x < RecordsUsed(defaults, saved, SLOT_COUNT) <==> exists n ::
              0 <= n < SLOT_COUNT && Covers(SlotTable()[n], x)
      ensures forall n, n' :: 0 <= n < SLOT_COUNT && 0 <= n' < SLOT_COUNT
                && Covers(SlotTable()[n], x) && Covers(SlotTable()[n'], x)
                ==> n == n'
    {
      hide Slots, Records, Start, Holds, Packed, RecordsUsed, Distinct;
      UsedIsTotal(defaults, blocks, saved);
      if x < Total(blocks) {
        var j := SomeBlockCovers(blocks, |blocks|, x);
        assert SlotPlaced(SlotTable(), blocks, j) && Covers(SlotTable()[blocks[j].key], x);
      }
      forall n | 0 <= n < SLOT_COUNT && Covers(SlotTable()[n], x)
        ensures x < Total(blocks)
      {
        RangeBelowTotal(SlotTable(), blocks, n);
      }
      forall n, n' | 0 <= n < SLOT_COUNT && 0 <= n' < SLOT_COUNT
          && Covers(SlotTable()[n], x) && Covers(SlotTable()[n'], x)
        ensures n == n'
      {
        var j := UsedSlot(SlotTable(), blocks, n);
        var j' := UsedSlot(SlotTable(), blocks, n');
        OneBlockPerByte(blocks, j, j', x);
      }
    }

    /** A used range holds the codes of its layout that differ from the default, by increasing key. */
    lemma RangeRecords(num: nat, i: nat, j: nat)
      requires Valid() && num in saved && num < SLOT_COUNT
      requires SlotTable()[num].lo <= i <= j <= SlotTable()[num].hi
      ensures SlotTable()[num].hi as int < place.capacity && |saved[num]| == |defaults|
      ensures var r := RecordTable()[j];
              r.lo < |defaults| && r.hi == saved[num][r.lo] && r.hi != defaults[r.lo]
      ensures i < j ==> RecordTable()[i].lo < RecordTable()[j].lo
    {
      hide Slots, Records, IndexAgrees, Packed, Start, Distinct, Holds, Diff;
      SavedLength(num);
      var b := SavedBlock(num);
      var r, m, lo, hi := SlotTable()[num], saved[num], SlotTable()[num].lo as int, SlotTable()[num].hi as int;
      assert RecordTable()[lo..hi + 1][i - lo] == RecordTable()[i];
      assert RecordTable()[lo..hi + 1][j - lo] == RecordTable()[j];
      DiffAt(defaults, m, |defaults|, j - lo);
      if i < j { DiffIncreases(defaults, m, |defaults|, i - lo, j - lo); }
    }
  }
}
