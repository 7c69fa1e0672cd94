/**
 * The I2C EEPROM driver (storage/i2c_eeprom.c) over a chip whose page writes wrap. A start
 * condition is retried until the chip answers, so no separate wait is needed here.
 */
module I2cEeprom {
  import opened Bytes
  import opened PagedMemory

  class Chip {
    const page: nat
    var mem: seq<Byte>
    var open: bool          // a transaction is open on the bus
    var cursor: nat         // address counter of the open transaction

    ghost predicate Valid()
      reads this
    {
      page > 0 && |mem| % page == 0 && (open ==> cursor < |mem|)
    }

    ghost predicate Closed()
      reads this
    {
      Valid() && !open
    }

    constructor (page: nat, contents: seq<Byte>)
      requires page > 0 && |contents| % page == 0
      ensures Closed() && this.page == page && mem == contents
    {
      this.page, mem, open, cursor := page, contents, false, 0;
    }

    // ---- bus operations ----

    method StartWrite(addr: nat)
      requires Closed() && addr < |mem|
      modifies `open, `cursor
      ensures Valid() && open && cursor == addr
    {
      open, cursor := true, addr;
    }

    method EndWrite()
      requires Valid() && open
      modifies `open
      ensures Closed()
    {
      open := false;
    }

    method WriteBusByte(b: Byte)
      requires Valid() && open
      modifies `mem, `cursor
      ensures Valid() && open
      ensures mem == old(mem)[old(cursor) := b]
      ensures cursor == NextAddress(page, old(cursor))
    {
      NextAddressInside(page, |mem|, cursor);
      mem := mem[cursor := b];
      cursor := NextAddress(page, cursor);
    }

    // ---- driver ----

    method ContinueWrite(buf: seq<Byte>)
      requires Valid() && open
      modifies `mem, `cursor
      ensures Valid() && open
      ensures mem == PageWrite(page, old(mem), old(cursor), buf)
      ensures cursor == Advance(page, |mem|, old(cursor), |buf|)
    {
      var i := 0;
      ghost var at := cursor;
      while i < |buf|
        invariant 0 <= i <= |buf| && Valid() && open && |mem| == old(|mem|)
        invariant PageWrite(page, mem, cursor, buf[i..]) == PageWrite(page, old(mem), at, buf)
        invariant Advance(page, |mem|, cursor, |buf| - i) == Advance(page, |mem|, at, |buf|)
      {
        assert buf[i..][1..] == buf[i + 1..];
        WriteBusByte(buf[i]);
        i := i + 1;
      }
      assert buf[i..] == [];
    }

    /** A dummy write sets the address counter, then the chip streams bytes without wrapping in the page. */
    method Read(addr: nat, n: nat) returns (data: seq<Byte>)
      requires Closed() && addr < |mem| && addr + n <= |mem|
      modifies `open, `cursor
      ensures Closed() && data == mem[addr..addr + n]
    {
      StartWrite(addr);
      data := [];
      var i := 0;
      while i < n
        invariant 0 <= i <= n && data == mem[addr..addr + i] && Valid() && open
      {
        data := data + [mem[addr + i]];
        i := i + 1;
      }
      EndWrite();
    }

    method WritePage(addr: nat, buf: seq<Byte>)
      requires Closed() && addr < |mem| && addr + |buf| <= |mem| && addr % page + |buf| <= page
      modifies this
      ensures Closed() && mem == Splice(old(mem), addr, buf)
    {
      StartWrite(addr);
      ContinueWrite(buf);
      PageWriteIsFlat(page, old(mem), addr, buf);
      EndWrite();
    }

    /** Bytes of the last chunk of a range that ends at end, going back at most to the start of its page. */
    function BackwardChunkLength(end: nat, count: nat): (n: nat)
      requires 0 < count <= end && page > 0
      ensures 0 < n <= count && (end - n) % page + n <= page
    {
      var offset := end % page;
      var remaining := if offset == 0 then page else offset;
      var n := if count < remaining then count else remaining;
      BackwardChunkFits(page, end, n);
      n
    }

    method Write(dst: nat, buf: seq<Byte>) returns (written: int)
      requires Closed() && dst + |buf| <= |mem|
      modifies this
      ensures Closed() && mem == Splice(old(mem), dst, buf)
      ensures |buf| < 0x8000 ==> written == |buf|
    {
      hide Splice;
      written := 0;
      var done := 0;
      SpliceNothing(mem, dst, buf);
      while done < |buf|
        invariant 0 <= done <= |buf| && Closed()
        invariant mem == Splice(old(mem), dst, buf[..done])
        invariant done < 0x8000 ==> written == done
      {
        var n := ChunkLength(page, dst + done, |buf| - done);
        var to := dst + done;
        SpliceChunk(old(mem), mem, dst, buf, done, to, n);
        WritePage(to, buf[done..done + n]);
        written := Add16(written, n);
        done := done + n;
      }
      assert buf[..done] == buf;
    }

    method MemSet(dst: nat, c: Byte, len: nat)
      requires Closed() && dst + len <= |mem|
      modifies this
      ensures Closed() && mem == Splice(old(mem), dst, Fill(c, len))
    {
      hide Splice;
      var done := 0;
      ghost var data := Fill(c, len);
      SpliceNothing(mem, dst, data);
      while done < len
        invariant 0 <= done <= len && Closed()
        invariant mem == Splice(old(mem), dst, data[..done])
      {
        var n := ChunkLength(page, dst + done, len - done);
        var to := dst + done;
        SpliceChunk(old(mem), mem, dst, data, done, to, n);
        assert Fill(c, n) == data[done..done + n];
        WritePage(to, Fill(c, n));
        done := done + n;
      }
      assert data[..done] == data;
    }

    method MoveChunk(dst: nat, src: nat, n: nat)
      requires Closed() && dst < |mem| && src < |mem| && dst + n <= |mem| && src + n <= |mem| && dst % page + n <= page
      modifies this
      ensures Closed() && mem == Splice(old(mem), dst, old(mem)[src..src + n])
    {
      var buf := Read(src, n);
      WritePage(dst, buf);
    }

    /** Overlap-safe in both directions: up from the end when the source lies below, down from the start otherwise. */
    method MemMove(dst: nat, src: nat, count: nat)
      requires Closed() && dst + count <= |mem| && src + count <= |mem|
      modifies this
      ensures Closed() && mem == Splice(old(mem), dst, old(mem)[src..src + count])
    {
      if src < dst {
        MoveUp(dst, src, count);
      } else {
        MoveDown(dst, src, count);
      }
    }

    method MoveDown(dst: nat, src: nat, count: nat)
      requires Closed() && dst <= src && src + count <= |mem|
      modifies this
      ensures Closed() && mem == Splice(old(mem), dst, old(mem)[src..src + count])
    {
      hide Splice;
      var done := 0;
      ghost var data := mem[src..src + count];
      SpliceNothing(mem, dst, data);
      while done < count
        invariant 0 <= done <= count && Closed()
        invariant mem == Splice(old(mem), dst, data[..done])
      {
        var n := ChunkLength(page, dst + done, count - done);
        var to, from := dst + done, src + done;
        MoveDownChunk(old(mem), mem, dst, src, data, done, to, from, n);
        MoveChunk(to, from, n);
        done := done + n;
      }
      assert data[..done] == data;
    }

    method MoveUp(dst: nat, src: nat, count: nat)
      requires Closed() && src < dst && dst + count <= |mem|
      modifies this
      ensures Closed() && mem == Splice(old(mem), dst, old(mem)[src..src + count])
    {
      hide Splice;
      var left, to := count, dst + count;
      ghost var data := mem[src..src + count];
      SpliceNothing(mem, to, data[left..]);
      assert data[left..][..0] == data[left..];
      while left > 0
        invariant 0 <= left <= count && to == dst + left && Closed()
        invariant mem == Splice(old(mem), to, data[left..])
      {
        var n := BackwardChunkLength(to, left);
        left, to := left - n, to - n;
        var from := src + left;
        MoveUpChunk(old(mem), mem, dst, src, data, left, to, from, n);
        MoveChunk(to, from, n);
      }
      assert data[left..] == data;
    }

    /** One step of a streamed write: opens a page at its start, closes it at its end or when told it is the last. */
    method WriteStep(addr: nat, data: seq<Byte>, last: bool)
      requires Valid() && addr < |mem| && addr + |data| <= |mem| && addr % page + |data| <= page
      requires if addr % page == 0 then !open else open && cursor == addr
      modifies this
      ensures Valid() && mem == Splice(old(mem), addr, data)
      ensures if last || (addr + |data|) % page == 0 then !open else open && cursor == addr + |data|
    {
      if addr % page == 0 {
        StartWrite(addr);
      }
      ContinueWrite(data);
      PageWriteIsFlat(page, old(mem), addr, data);
      if addr % page + |data| < page {
        AdvanceInPage(page, |mem|, addr, |data|);
        OffsetInPage(page, addr, |data|);
      } else {
        PageFilled(page, addr, |data|);
      }
      if last || (addr + |data|) % page == 0 {
        EndWrite();
      }
    }

    method Stream(addr: nat, data: seq<Byte>)
      requires Closed() && |data| >= 1 && addr + |data| <= |mem|
      modifies this
      ensures Closed() && mem == Splice(old(mem), addr, data)
    {
      if addr % page != 0 {
        StartWrite(addr);
      }
      var done := 0;
      SpliceNothing(mem, addr, data);
      while done < |data|
        invariant 0 <= done <= |data| && Valid()
        invariant mem == Splice(old(mem), addr, data[..done])
        invariant if done == |data| || (addr + done) % page == 0 then !open
                  else open && cursor == addr + done
      {
        assert (addr + done) % page + 1 <= page;
        var to := addr + done;
        SpliceChunk(old(mem), mem, addr, data, done, to, 1);
        WriteStep(to, data[done..done + 1], |data| - done == 1);
        done := done + 1;
      }
      assert data[..done] == data;
    }
  }
}
