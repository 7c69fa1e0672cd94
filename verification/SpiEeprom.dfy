/**
 * The SPI EEPROM driver (storage/spi_eeprom.c) over a model of the chip: a page write wraps
 * inside its page, needs the write-enable latch, and leaves an internal write cycle running
 * during which the chip accepts nothing but a status read.
 */
module SpiEeprom {
  import opened Bytes
  import opened PagedMemory

  class Chip {
    const page: nat
    var mem: seq<Byte>
    var selected: bool      // slave select is held low by an open write transaction
    var latch: bool         // write-enable latch
    var cursor: nat         // address counter of the open transaction
    var cycle: nat          // status polls until the internal write cycle ends

    ghost predicate Valid()
      reads this
    {
      && page > 0 && |mem| % page == 0 && |mem| <= 0x1_0000
      && (selected ==> latch && cycle == 0 && cursor < |mem|)
    }

    /** No transaction is open and no write cycle is running: the chip accepts any command. */
    ghost predicate Ready()
      reads this
    {
      Valid() && !selected && cycle == 0
    }

    /** No transaction is open; a write cycle may still be running. */
    ghost predicate Closed()
      reads this
    {
      Valid() && !selected
    }

    constructor (page: nat, contents: seq<Byte>)
      requires page > 0 && |contents| % page == 0 && |contents| <= 0x1_0000
      ensures Ready() && this.page == page && mem == contents
    {
      this.page, mem := page, contents;
      selected, latch, cursor, cycle := false, false, 0, 0;
    }

    // ---- chip commands ----

    method EnableWrite()
      requires Ready()
      modifies `latch
      ensures Ready() && latch
    {
      latch := true;
    }

    method TransferByte(b: Byte)
      requires Valid() && selected
      modifies `mem, `cursor
      ensures Valid() && selected
      ensures mem == old(mem)[old(cursor) := b]
      ensures cursor == NextAddress(page, old(cursor))
    {
      NextAddressInside(page, |mem|, cursor);
      mem := mem[cursor := b];
      cursor := NextAddress(page, cursor);
    }

    /** Raising slave select ends the transaction and starts a write cycle of unknown length. */
    method SlaveOff()
      requires Valid() && selected
      modifies `selected, `latch, `cycle
      ensures Closed()
    {
      selected, latch := false, false;
      cycle := *;
    }

    method ReadStatus() returns (inProgress: bool)
      requires Closed()
      modifies `cycle
      ensures Closed() && inProgress == (old(cycle) > 0)
      ensures cycle == if inProgress then old(cycle) - 1 else 0
    {
      inProgress := cycle > 0;
      if inProgress {
        cycle := cycle - 1;
      }
    }

    // ---- driver ----

    method WaitForLastWriteEnd()
      requires Closed()
      modifies `cycle
      ensures Ready()
    {
      while true
        invariant Closed()
        decreases cycle
      {
        var inProgress := ReadStatus();
        if !inProgress {
          break;
        }
      }
    }

    method StartWrite(addr: nat)
      requires Ready() && addr < |mem|
      modifies `latch, `selected, `cursor
      ensures Valid() && selected && cursor == addr
    {
      EnableWrite();
      selected, cursor := true, addr;
    }

    method CheckedStartWrite(addr: nat)
      requires Closed() && addr < |mem|
      modifies `latch, `selected, `cursor, `cycle
      ensures Valid() && selected && cursor == addr
    {
      WaitForLastWriteEnd();
      StartWrite(addr);
    }

    method ContinueWrite(buf: seq<Byte>)
      requires Valid() && selected
      modifies `mem, `cursor
      ensures Valid() && selected
      ensures mem == PageWrite(page, old(mem), old(cursor), buf)
      ensures cursor == Advance(page, |mem|, old(cursor), |buf|)
    {
      var i := 0;
      ghost var at := cursor;
      while i < |buf|
        invariant 0 <= i <= |buf| && Valid() && selected && |mem| == old(|mem|)
        invariant PageWrite(page, mem, cursor, buf[i..]) == PageWrite(page, old(mem), at, buf)
        invariant Advance(page, |mem|, cursor, |buf| - i) == Advance(page, |mem|, at, |buf|)
      {
        assert buf[i..][1..] == buf[i + 1..];
        TransferByte(buf[i]);
        i := i + 1;
      }
      assert buf[i..] == [];
    }

    method Read(addr: nat, n: nat) returns (data: seq<Byte>)
      requires Ready() && addr + n <= |mem|
      ensures data == mem[addr..addr + n]
    {
      data := [];
      var i := 0;
      while i < n
        invariant 0 <= i <= n && data == mem[addr..addr + i]
      {
        data := data + [mem[addr + i]];
        i := i + 1;
      }
    }

    method ReadWordAt(addr: nat) returns (w: Word)
      requires Ready() && addr + 2 <= |mem|
      ensures w == ReadWord(mem, addr)
    {
      var data := Read(addr, 2);
      w := MakeWord(data[0], data[1]);
    }

    /** A page write; a run that stays in its page is a flat write. */
    method WritePage(addr: nat, buf: seq<Byte>)
      requires Ready() && addr < |mem|
      modifies this
      ensures Closed() && mem == PageWrite(page, old(mem), addr, buf)
      ensures addr + |buf| <= |mem| && addr % page + |buf| <= page ==> mem == Splice(old(mem), addr, buf)
    {
      StartWrite(addr);
      ContinueWrite(buf);
      if addr + |buf| <= |mem| && addr % page + |buf| <= page {
        PageWriteIsFlat(page, old(mem), addr, buf);
      }
      SlaveOff();
    }

    method Write(dst: nat, buf: seq<Byte>) returns (written: int)
      requires Closed() && dst + |buf| <= |mem|
      modifies this
      ensures Closed() && mem == Splice(old(mem), dst, buf)
      ensures |buf| < 0x8000 ==> written == |buf|
      ensures |buf| == 0 ==> cycle == old(cycle)
    {
      hide PageWrite, Splice;
      written := 0;
      var done := 0;
      SpliceNothing(mem, dst, buf);
      while done < |buf|
        invariant 0 <= done <= |buf| && Closed()
        invariant mem == Splice(old(mem), dst, buf[..done])
        invariant done < 0x8000 ==> written == done
        invariant |buf| == 0 ==> cycle == old(cycle)
      {
        var n := ChunkLength(page, dst + done, |buf| - done);
        WaitForLastWriteEnd();
        var to := dst + done;
        SpliceChunk(old(mem), mem, dst, buf, done, to, n);
        WritePage(to, buf[done..done + n]);
        written := Add16(written, n);
        done := done + n;
      }
      assert buf[..done] == buf;
    }

    method MemSet(dst: nat, c: Byte, len: nat)
      requires Closed() && dst + len <= |mem|
      modifies this
      ensures Closed() && mem == Splice(old(mem), dst, Fill(c, len))
    {
      hide PageWrite, Splice;
      var done := 0;
      ghost var data := Fill(c, len);
      SpliceNothing(mem, dst, data);
      while done < len
        invariant 0 <= done <= len && Closed()
        invariant mem == Splice(old(mem), dst, data[..done])
      {
        var n := ChunkLength(page, dst + done, len - done);
        WaitForLastWriteEnd();
        var to := dst + done;
        SpliceChunk(old(mem), mem, dst, data, done, to, n);
        assert Fill(c, n) == data[done..done + n];
        WritePage(to, Fill(c, n));
        done := done + n;
      }
      assert data[..done] == data;
    }

    /** A word on a page boundary takes the chunked path, any other one page write. */
    method WriteShort(dst: nat, w: Word)
      requires Closed() && dst + 2 <= |mem|
      modifies this
      ensures Closed() && mem == Splice(old(mem), dst, WordBytes(w))
    {
      hide PageWrite, Splice;
      if dst % page == page - 1 {
        var _ := Write(dst, WordBytes(w));
      } else {
        WaitForLastWriteEnd();
        WritePage(dst, WordBytes(w));
      }
    }

    method WriteByte(dst: nat, b: Byte)
      requires Closed() && dst < |mem|
      modifies this
      ensures Closed() && mem == Splice(old(mem), dst, [b])
    {
      WaitForLastWriteEnd();
      WritePage(dst, [b]);
    }

    /** One chunk of a move: read into a page buffer, then write the page. */
    method MoveChunk(dst: nat, src: nat, n: nat)
      requires Closed() && dst < |mem| && dst + n <= |mem| && src + n <= |mem| && dst % page + n <= page
      modifies this
      ensures Closed() && mem == Splice(old(mem), dst, old(mem)[src..src + n])
    {
      hide PageWrite, Splice;
      WaitForLastWriteEnd();
      var buf := Read(src, n);
      WritePage(dst, buf);
    }

    /**
     * Moves data down as memmove does. Upwards the loop works backwards, but begins at the low
     * ends of the data and lets pages wrap.
     */
    method MemMove(dst: nat, src: nat, count: nat)
      requires Closed() && dst + count <= |mem| && src + count <= |mem| && (src < dst ==> count <= src)
      modifies this
      ensures Closed() && mem == Moved(page, old(mem), dst, src, count)
    {
      if src < dst {
        MoveUp(dst, src, count);
      } else {
        MoveDown(dst, src, count);
      }
    }

    method MoveUp(dst0: nat, src0: nat, count0: nat)
      requires Closed() && count0 <= src0 < dst0 <= |mem|
      modifies this
      ensures Closed() && mem == Backwards(page, old(mem), dst0, src0, count0)
    {
      hide PageWrite;
      var dst, src, count := dst0, src0, count0;
      while count > 0
        invariant Closed() && 0 <= count <= src < dst <= |mem|
        invariant Backwards(page, mem, dst, src, count) == Backwards(page, old(mem), dst0, src0, count0)
      {
        var remaining := dst % page + 1;
        var n := if count < remaining then count else remaining;
        src, dst := src - n, dst - n;
        WaitForLastWriteEnd();
        var buf := Read(src, n);
        WritePage(dst, buf);
        count := count - n;
      }
    }

    /** Moving data down never reads a byte an earlier chunk has overwritten. */
    method MoveDown(dst: nat, src: nat, count: nat)
      requires Closed() && dst <= src && src + count <= |mem|
      modifies this
      ensures Closed() && mem == Splice(old(mem), dst, old(mem)[src..src + count])
    {
      var done := 0;
      ghost var data := mem[src..src + count];
      SpliceNothing(mem, dst, data);
      while done < count
        invariant 0 <= done <= count && Closed()
        invariant mem == Splice(old(mem), dst, data[..done])
      {
        var n := ChunkLength(page, dst + done, count - done);
        var to, from := dst + done, src + done;
        MoveDownChunk(old(mem), mem, dst, src, data, done, to, from, n);
        MoveChunk(to, from, n);
        done := done + n;
      }
      assert data[..done] == data;
    }

    /** One step of a streamed write: opens a page at its start, closes it at its end or when told it is the last. */
    method WriteStep(addr: nat, data: seq<Byte>, last: bool)
      requires Valid() && addr < |mem| && addr + |data| <= |mem| && addr % page + |data| <= page
      requires if addr % page == 0 then !selected else selected && cursor == addr
      modifies this
      ensures Valid() && mem == Splice(old(mem), addr, data)
      ensures if last || (addr + |data|) % page == 0 then !selected else selected && cursor == addr + |data|
    {
      if addr % page == 0 {
        WaitForLastWriteEnd();
        StartWrite(addr);
      }
      ContinueWrite(data);
      PageWriteIsFlat(page, old(mem), addr, data);
      if addr % page + |data| < page {
        AdvanceInPage(page, |mem|, addr, |data|);
        OffsetInPage(page, addr, |data|);
      } else {
        PageFilled(page, addr, |data|);
      }
      if last || (addr + |data|) % page == 0 {
        SlaveOff();
      }
    }

    /** A USB control transfer into the chip: one byte per step, with the opening start when unaligned. */
    method Stream(addr: nat, data: seq<Byte>)
      requires Closed() && |data| >= 1 && addr + |data| <= |mem|
      modifies this
      ensures Closed() && mem == Splice(old(mem), addr, data)
    {
      if addr % page != 0 {
        CheckedStartWrite(addr);
      }
      var done := 0;
      SpliceNothing(mem, addr, data);
      while done < |data|
        invariant 0 <= done <= |data| && Valid()
        invariant mem == Splice(old(mem), addr, data[..done])
        invariant if done == |data| || (addr + done) % page == 0 then !selected
                  else selected && cursor == addr + done
      {
        assert (addr + done) % page + 1 <= page;
        var to := addr + done;
        SpliceChunk(old(mem), mem, addr, data, done, to, 1);
        WriteStep(to, data[done..done + 1], |data| - done == 1);
        done := done + 1;
      }
      assert data[..done] == data;
    }
  }

  // ---- what an upward move does ----

  /** Chunks of at most the offset in the page plus one byte, the next one always below the last. */
  function Backwards(page: nat, mem: seq<Byte>, dst: nat, src: nat, count: nat): (r: seq<Byte>)
    requires page > 0 && |mem| % page == 0 && count <= src < dst <= |mem|
    ensures |r| == |mem|
    decreases count
  {
    if count == 0 then mem
    else
      var n := if count < dst % page + 1 then count else dst % page + 1;
      Backwards(page, PageWrite(page, mem, dst - n, mem[src - n..src]), dst - n, src - n, count - n)
  }

  function Moved(page: nat, mem: seq<Byte>, dst: nat, src: nat, count: nat): (r: seq<Byte>)
    requires page > 0 && |mem| % page == 0 && dst + count <= |mem| && src + count <= |mem|
    requires src < dst ==> count <= src
    ensures |r| == |mem|
  {
    if src < dst then Backwards(page, mem, dst, src, count) else Splice(mem, dst, mem[src..src + count])
  }

  /** A chunk that ends at end, with at most one byte in the page below, changes nothing from end on. */
  lemma BackwardWrite(page: nat, mem: seq<Byte>, end: nat, n: nat, buf: seq<Byte>)
    requires page > 0 && |mem| % page == 0 && 0 < n <= end <= |mem| && n <= end % page + 1 && |buf| == n
    ensures forall x :: end <= x < |mem| ==> PageWrite(page, mem, end - n, buf)[x] == mem[x]
  {
    PageBegins(page, end);
    if n <= end % page {
      BackwardChunkFits(page, end, n);
      PageWriteIsFlat(page, mem, end - n, buf);
    } else {
      PageWriteBelow(page, mem, end - n, buf, end - end % page);
    }
  }

  /** An upward move changes no byte from its destination on. */
  lemma {:induction false} BackwardsStaysBelow(page: nat, mem: seq<Byte>, dst: nat, src: nat, count: nat, end: nat)
    requires page > 0 && |mem| % page == 0 && count <= src < dst <= |mem| && dst <= end
    ensures forall x :: end <= x < |mem| ==> Backwards(page, mem, dst, src, count)[x] == mem[x]
    decreases count
  {
    hide PageWrite;
    if count > 0 {
      var n := if count < dst % page + 1 then count else dst % page + 1;
      var buf := mem[src - n..src];
      BackwardWrite(page, mem, dst, n, buf);
      BackwardsStaysBelow(page, PageWrite(page, mem, dst - n, buf), dst - n, src - n, count - n, end);
    }
  }

  /** The driver moves data as memmove does, whatever the memory holds, exactly when it moves down or moves nothing. */
  lemma MoveIsRightIff(page: nat, size: nat, dst: nat, src: nat, count: nat)
    requires page > 0 && size % page == 0 && dst + count <= size && src + count <= size
    requires src < dst ==> count <= src
    ensures dst <= src || count == 0 <==>
            forall mem: seq<Byte> :: |mem| == size ==>
              Moved(page, mem, dst, src, count) == Splice(mem, dst, mem[src..src + count])
  {
    hide Backwards, Splice;
    if dst <= src {
    } else if count == 0 {
      forall mem: seq<Byte> | |mem| == size
        ensures Moved(page, mem, dst, src, count) == Splice(mem, dst, mem[src..src + count])
      {
        NothingMoved(page, mem, dst, src);
      }
    } else {
      var mem := Fill(0, size)[src + count - 1 := 1];
      UpwardMoveFails(page, mem, dst, src, count);
    }
  }

  lemma NothingMoved(page: nat, mem: seq<Byte>, dst: nat, src: nat)
    requires page > 0 && |mem| % page == 0 && src < dst <= |mem|
    ensures Backwards(page, mem, dst, src, 0) == mem == Splice(mem, dst, mem[src..src])
  {
  }

  /** An upward move of a byte that is not already in place is not what memmove promises. */
  lemma UpwardMoveFails(page: nat, mem: seq<Byte>, dst: nat, src: nat, count: nat)
    requires page > 0 && |mem| % page == 0 && 0 < count <= src < dst && dst + count <= |mem|
    requires mem[dst + count - 1] != mem[src + count - 1]
    ensures Moved(page, mem, dst, src, count) != Splice(mem, dst, mem[src..src + count])
  {
    hide Backwards;
    BackwardsStaysBelow(page, mem, dst, src, count, dst);
    var data := mem[src..src + count];
    assert Splice(mem, dst, data)[dst + count - 1] == data[count - 1];
  }
}
