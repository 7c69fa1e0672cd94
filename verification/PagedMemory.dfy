/**
 * Serial EEPROM memory. A page write sends one address and then a run of bytes; the chip's
 * address counter wraps inside the page, so bytes sent past the page end land at its start.
 * `Splice` is the flat write callers want, `PageWrite` is what the chip does.
 */
module PagedMemory {
  import opened Bytes

  function Splice(mem: seq<Byte>, at: nat, data: seq<Byte>): (r: seq<Byte>)
    requires at + |data| <= |mem|
    ensures |r| == |mem|
    ensures forall i :: 0 <= i < |mem| ==> r[i] == if at <= i < at + |data| then data[i - at] else mem[i]
  {
    mem[..at] + data + mem[at + |data|..]
  }

  function Fill(c: Byte, n: nat): (s: seq<Byte>)
    ensures |s| == n && forall i :: 0 <= i < n ==> s[i] == c
  {
    seq(n, _ => c)
  }

  lemma SpliceJoin(mem: seq<Byte>, at: nat, a: seq<Byte>, b: seq<Byte>)
    requires at + |a| + |b| <= |mem|
    ensures Splice(Splice(mem, at, a), at + |a|, b) == Splice(mem, at, a + b)
  {
  }

  /** One more chunk of a longer flat write that has reached `to`. */
  lemma SpliceChunk(mem: seq<Byte>, now: seq<Byte>, at: nat, data: seq<Byte>, done: nat, to: nat, n: nat)
    requires done + n <= |data| && at + |data| <= |mem| && to == at + done
    requires now == Splice(mem, at, data[..done])
    ensures Splice(now, to, data[done..done + n]) == Splice(mem, at, data[..done + n])
  {
    SpliceJoin(mem, at, data[..done], data[done..done + n]);
    assert data[..done] + data[done..done + n] == data[..done + n];
  }

  lemma SpliceBefore(mem: seq<Byte>, at: nat, a: seq<Byte>, b: seq<Byte>)
    requires at + |a| + |b| <= |mem|
    ensures Splice(Splice(mem, at + |a|, b), at, a) == Splice(mem, at, a + b)
  {
  }

  lemma SpliceNothing(mem: seq<Byte>, at: nat, data: seq<Byte>)
    requires at + |data| <= |mem|
    ensures Splice(mem, at, data[..0]) == mem
  {
  }

  /** Bytes outside the written range keep their value. */
  lemma SpliceKeeps(mem: seq<Byte>, at: nat, data: seq<Byte>, from: nat, n: nat)
    requires at + |data| <= |mem| && from + n <= |mem|
    requires from + n <= at || at + |data| <= from
    ensures Splice(mem, at, data)[from..from + n] == mem[from..from + n]
  {
  }

  lemma SliceOfSlice(mem: seq<Byte>, src: nat, data: seq<Byte>, i: nat, n: nat, from: nat)
    requires src + |data| <= |mem| && data == mem[src..src + |data|] && i + n <= |data| && from == src + i
    ensures data[i..i + n] == mem[from..from + n]
  {
    var x, y := data[i..i + n], mem[from..from + n];
    forall k | 0 <= k < n
      ensures x[k] == y[k]
    {
      assert x[k] == data[i + k] == mem[src + (i + k)];
      assert y[k] == mem[from + k];
    }
  }

  /** A downward move may read its source while writing: what is still to be read has not been touched. */
  lemma MoveDownChunk(mem: seq<Byte>, now: seq<Byte>, dst: nat, src: nat, data: seq<Byte>,
                      done: nat, to: nat, from: nat, n: nat)
    requires dst <= src && src + |data| <= |mem| && done + n <= |data| && data == mem[src..src + |data|]
    requires now == Splice(mem, dst, data[..done]) && to == dst + done && from == src + done
    ensures Splice(now, to, now[from..from + n]) == Splice(mem, dst, data[..done + n])
  {
    assert now[from..from + n] == data[done..done + n] by {
      SpliceKeeps(mem, dst, data[..done], from, n);
      SliceOfSlice(mem, src, data, done, n, from);
    }
    SpliceChunk(mem, now, dst, data, done, to, n);
  }

  /** An upward move that works back from the end leaves the source below it untouched. */
  lemma MoveUpChunk(mem: seq<Byte>, now: seq<Byte>, dst: nat, src: nat, data: seq<Byte>,
                    left: nat, to: nat, from: nat, n: nat)
    requires src < dst && dst + |data| <= |mem| && left + n <= |data| && data == mem[src..src + |data|]
    requires to == dst + left && from == src + left && now == Splice(mem, to + n, data[left + n..])
    ensures Splice(now, to, now[from..from + n]) == Splice(mem, to, data[left..])
  {
    assert now[from..from + n] == data[left..left + n] by {
      SpliceKeeps(mem, to + n, data[left + n..], from, n);
      SliceOfSlice(mem, src, data, left, n, from);
    }
    SpliceBefore(mem, to, data[left..left + n], data[left + n..]);
    assert data[left..left + n] + data[left + n..] == data[left..];
  }

  /** The chip's address counter after one byte. */
  function NextAddress(page: nat, a: nat): nat
    requires page > 0
  {
    if (a + 1) % page == 0 then a + 1 - page else a + 1
  }

  /** A memory made of whole pages keeps the counter inside. */
  lemma NextAddressInside(page: nat, size: nat, a: nat)
    requires page > 0 && size % page == 0 && a < size
    ensures (a + 1) % page == 0 ==> a + 1 >= page
    ensures 0 <= NextAddress(page, a) < size
  {
    var q := (a + 1) / page;
    assert a + 1 == page * q + (a + 1) % page;
    if (a + 1) % page == 0 {
      MulBounds(page, q);
    } else if a + 1 == size {
      assert false;
    }
  }

  lemma MulBounds(page: nat, d: int)
    ensures d >= 1 ==> page * d >= page
    ensures d <= -1 ==> page * d <= -(page as int)
    ensures d == 0 ==> page * d == 0
  {
  }

  /** Bytes from dst to the end of its page, cut to what is left to do. */
  function ChunkLength(page: nat, dst: nat, count: nat): (n: nat)
    requires count > 0 && page > 0
    ensures 0 < n <= count && dst % page + n <= page
  {
    var remaining := page - dst % page;
    if count < remaining then count else remaining
  }

  function PageWrite(page: nat, mem: seq<Byte>, at: nat, data: seq<Byte>): (r: seq<Byte>)
    requires page > 0 && |mem| % page == 0 && at < |mem|
    ensures |r| == |mem|
    decreases |data|
  {
    if data == [] then mem
    else
      NextAddressInside(page, |mem|, at);
      PageWrite(page, mem[at := data[0]], NextAddress(page, at), data[1..])
  }

  /** The counter after n bytes. */
  function Advance(page: nat, size: nat, a: nat, n: nat): (r: nat)
    requires page > 0 && size % page == 0 && a < size
    ensures r < size
    decreases n
  {
    if n == 0 then a
    else
      NextAddressInside(page, size, a);
      Advance(page, size, NextAddress(page, a), n - 1)
  }

  lemma OffsetInPage(page: nat, a: nat, i: nat)
    requires page > 0 && a % page + i < page
    ensures (a + i) % page == a % page + i
  {
    var q, r := a / page, a % page;
    assert a + i == page * q + (r + i);
    ModUnique(page, q, r + i);
  }

  lemma ModUnique(page: nat, q: int, r: nat)
    requires r < page
    ensures (page * q + r) % page == r
  {
    var x := page * q + r;
    var d := q - x / page;
    assert x == page * (x / page) + x % page;
    assert page * d == x % page - r by {
      assert page * q - page * (x / page) == page * (q - x / page);
    }
    MulBounds(page, d);
  }

  /** Inside one page the wrapping write is the flat write: the fact every chunked loop relies on. */
  lemma {:induction false} PageWriteIsFlat(page: nat, mem: seq<Byte>, at: nat, data: seq<Byte>)
    requires page > 0 && |mem| % page == 0 && at + |data| <= |mem| && at < |mem|
    requires at % page + |data| <= page
    ensures PageWrite(page, mem, at, data) == Splice(mem, at, data)
    decreases |data|
  {
    if |data| == 1 {
      assert PageWrite(page, mem, at, data) == mem[at := data[0]];
    } else if |data| > 1 {
      OffsetInPage(page, at, 1);
      NextAddressInside(page, |mem|, at);
      PageWriteIsFlat(page, mem[at := data[0]], at + 1, data[1..]);
      SpliceJoin(mem, at, data[..1], data[1..]);
      assert data == data[..1] + data[1..];
      assert mem[at := data[0]] == Splice(mem, at, data[..1]);
    }
  }

  /** A chunk cut back from end to at most the start of the page below stays in one page. */
  lemma BackwardChunkFits(page: nat, end: nat, n: nat)
    requires page > 0 && 0 < n <= end
    requires n <= if end % page == 0 then page else end % page
    ensures (end - n) % page + n <= page
  {
    var q, r := end / page, end % page;
    assert end == page * q + r;
    if r == 0 {
      assert end - n == page * (q - 1) + (page - n);
      ModUnique(page, q - 1, page - n);
    } else {
      assert end - n == page * q + (r - n);
      ModUnique(page, q, r - n);
    }
  }

  /** A run that fills its page exactly ends at a page start. */
  lemma PageFilled(page: nat, a: nat, n: nat)
    requires page > 0 && a % page + n == page
    ensures (a + n) % page == 0
  {
    var q := a / page;
    assert a + n == page * q + page == page * (q + 1) + 0;
    ModUnique(page, q + 1, 0);
  }

  lemma {:induction false} AdvanceInPage(page: nat, size: nat, a: nat, n: nat)
    requires page > 0 && size % page == 0 && a < size && a % page + n < page
    ensures Advance(page, size, a, n) == a + n
    decreases n
  {
    if n > 0 {
      OffsetInPage(page, a, 1);
      NextAddressInside(page, size, a);
      AdvanceInPage(page, size, a + 1, n - 1);
    }
  }

  /** Wrapping or not, a page write that begins below a page boundary stays below it. */
  lemma {:induction false} PageWriteBelow(page: nat, mem: seq<Byte>, at: nat, data: seq<Byte>, end: nat)
    requires page > 0 && |mem| % page == 0 && at < |mem| && end % page == 0 && at < end
    ensures forall x :: end <= x < |mem| ==> PageWrite(page, mem, at, data)[x] == mem[x]
    decreases |data|
  {
    if data != [] {
      NextAddressInside(page, |mem|, at);
      PageWriteBelow(page, mem[at := data[0]], NextAddress(page, at), data[1..], end);
    }
  }

  lemma PageBegins(page: nat, a: nat)
    requires page > 0
    ensures a % page <= a && (a - a % page) % page == 0
  {
    var q := a / page;
    assert a - a % page == page * q + 0;
    ModUnique(page, q, 0);
  }

  /** One byte past the page end overwrites the first byte of the same page instead of the next one. */
  lemma PageWriteWraps(page: nat, mem: seq<Byte>, at: nat, a: Byte, b: Byte)
    requires page > 1 && |mem| % page == 0 && at < |mem| && (at + 1) % page == 0
    ensures at + 1 >= page
    ensures PageWrite(page, mem, at, [a, b]) == mem[at := a][at + 1 - page := b]
  {
    NextAddressInside(page, |mem|, at);
    assert PageWrite(page, mem[at := a], at + 1 - page, [b]) == mem[at := a][at + 1 - page := b] by {
      NextAddressInside(page, |mem|, at + 1 - page);
    }
    assert [a, b][1..] == [b];
  }
}
