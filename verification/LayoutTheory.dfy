/**
 * Saved layouts as data (config.c): a layout is kept as the list of its differences from the
 * default table, and the lists of all slots are packed one after another.
 */
module LayoutTheory {
  import opened Bytes
  import opened PagedMemory
  import opened Packing

  const SLOT_COUNT: nat := 10

  /** Two bytes stored as one word: a (key, code) record or the (start, end) range of a slot. */
  datatype Pair = Pair(lo: Byte, hi: Byte)

  type SlotBlock = Block<nat, Pair>

  const NO_RANGE: Pair := Pair(NO_KEY, NO_KEY)

  // ---- differences from the default table ----

  /** The records of the keys below n whose code differs from the default. */
  function Diff(d: seq<Byte>, m: seq<Byte>, n: nat): (r: seq<Pair>)
    requires n <= |d| == |m| && |d| <= 0xFF
    ensures |r| <= n
  {
    if n == 0 then []
    else if m[n - 1] != d[n - 1] then Diff(d, m, n - 1) + [Pair(n - 1, m[n - 1])]
    else Diff(d, m, n - 1)
  }

  function AllDiffs(d: seq<Byte>, m: seq<Byte>): seq<Pair>
    requires |d| == |m| && |d| <= 0xFF
  {
    Diff(d, m, |d|)
  }

  /** A record names a key below n whose code differs, and holds that code. */
  lemma {:induction false} DiffAt(d: seq<Byte>, m: seq<Byte>, n: nat, i: nat)
    requires n <= |d| == |m| && |d| <= 0xFF && i < |Diff(d, m, n)|
    ensures var p := Diff(d, m, n)[i]; p.lo < n && p.hi == m[p.lo] && p.hi != d[p.lo]
  {
    if i < |Diff(d, m, n - 1)| { DiffAt(d, m, n - 1, i); }
  }

  /** The list of all differences starts with those below l; the rest are of keys from l on. */
  lemma {:induction false} DiffSplits(d: seq<Byte>, m: seq<Byte>, l: nat, n: nat)
    requires l <= n <= |d| == |m| && |d| <= 0xFF
    ensures Diff(d, m, l) <= Diff(d, m, n)
    ensures forall i :: |Diff(d, m, l)| <= i < |Diff(d, m, n)| ==> Diff(d, m, n)[i].lo >= l
  {
    if l < n { DiffSplits(d, m, l, n - 1); }
  }

  /** Records come in strictly increasing key order. */
  lemma {:induction false} DiffIncreases(d: seq<Byte>, m: seq<Byte>, n: nat, i: nat, j: nat)
    requires n <= |d| == |m| && |d| <= 0xFF && i < j < |Diff(d, m, n)|
    ensures Diff(d, m, n)[i].lo < Diff(d, m, n)[j].lo
  {
    if j < |Diff(d, m, n - 1)| { DiffIncreases(d, m, n - 1, i, j); } else { DiffAt(d, m, n - 1, i); }
  }

  /** No difference means the default table itself. */
  lemma {:induction false} NoDiffIsDefault(d: seq<Byte>, m: seq<Byte>, n: nat)
    requires n <= |d| == |m| && |d| <= 0xFF
    ensures Diff(d, m, n) == [] <==> m[..n] == d[..n]
  {
    if n > 0 {
      NoDiffIsDefault(d, m, n - 1);
      assert m[..n] == m[..n - 1] + [m[n - 1]] && d[..n] == d[..n - 1] + [d[n - 1]];
    }
  }

  // ---- words in memory ----

  function PairsOf(mem: seq<Byte>, base: nat, n: nat): (r: seq<Pair>)
    requires base + 2 * n <= |mem|
    ensures |r| == n && forall i :: 0 <= i < n ==> r[i] == Pair(mem[base + 2 * i], mem[base + 2 * i + 1])
  {
    seq(n, i requires 0 <= i < n => Pair(mem[base + 2 * i], mem[base + 2 * i + 1]))
  }

  /** Writing word i of a table changes that word only. */
  lemma PairWritten(mem: seq<Byte>, base: nat, n: nat, i: nat, at: nat, p: Pair)
    requires base + 2 * n <= |mem| && i < n && at == base + 2 * i
    ensures PairsOf(Splice(mem, at, [p.lo, p.hi]), base, n) == PairsOf(mem, base, n)[i := p]
  {
    var r, t := PairsOf(Splice(mem, at, [p.lo, p.hi]), base, n), PairsOf(mem, base, n)[i := p];
    forall k | 0 <= k < n
      ensures r[k] == t[k]
    {
    }
  }

  lemma PairsElsewhere(mem: seq<Byte>, base: nat, n: nat, at: nat, data: seq<Byte>)
    requires base + 2 * n <= |mem| && at + |data| <= |mem| && (at + |data| <= base || base + 2 * n <= at)
    ensures PairsOf(Splice(mem, at, data), base, n) == PairsOf(mem, base, n)
  {
  }

  /** Moving words of a table down is closing up the table. */
  lemma PairsMoved(mem: seq<Byte>, base: nat, n: nat, gap: nat, rest: nat, end: nat, dst: nat, src: nat, len: nat)
    requires base + 2 * n <= |mem| && gap <= rest <= end <= n
    requires dst == base + 2 * gap && src == base + 2 * rest && len == 2 * (end - rest)
    ensures PairsOf(Splice(mem, dst, mem[src..src + len]), base, n) == ClosedUp(PairsOf(mem, base, n), gap, rest, end)
  {
    hide PairsOf, Splice, ClosedUp;
    var now := Splice(mem, dst, mem[src..src + len]);
    var r, t := PairsOf(now, base, n), ClosedUp(PairsOf(mem, base, n), gap, rest, end);
    forall k | 0 <= k < n
      ensures r[k] == t[k]
    {
      PairMoved(mem, base, n, gap, rest, end, dst, src, len, k);
    }
  }

  lemma PairMoved(mem: seq<Byte>, base: nat, n: nat, gap: nat, rest: nat, end: nat, dst: nat, src: nat, len: nat,
                  k: nat)
    requires base + 2 * n <= |mem| && gap <= rest <= end <= n && k < n
    requires dst == base + 2 * gap && src == base + 2 * rest && len == 2 * (end - rest)
    ensures PairsOf(Splice(mem, dst, mem[src..src + len]), base, n)[k]
         == ClosedUp(PairsOf(mem, base, n), gap, rest, end)[k]
  {
    hide Splice, ClosedUp;
    var x := base + 2 * k;
    MovedByte(mem, dst, src, len, x);
    MovedByte(mem, dst, src, len, x + 1);
    ClosedUpAt(PairsOf(mem, base, n), gap, rest, end, k);
  }

  lemma MovedByte(mem: seq<Byte>, dst: nat, src: nat, len: nat, x: nat)
    requires dst <= src && src + len <= |mem| && x < |mem|
    ensures Splice(mem, dst, mem[src..src + len])[x] == if dst <= x < dst + len then mem[x - dst + src] else mem[x]
  {
  }

  lemma ClosedUpAt<T>(heap: seq<T>, gap: nat, rest: nat, end: nat, i: nat)
    requires gap <= rest <= end <= |heap| && i < |heap|
    ensures ClosedUp(heap, gap, rest, end)[i] == if gap <= i < gap + (end - rest) then heap[i + (rest - gap)]
            else heap[i]
  {
  }

  // ---- the slot index ----

  ghost predicate SlotPlaced(ix: seq<Pair>, bs: seq<SlotBlock>, j: nat)
    requires |ix| == SLOT_COUNT && j < |bs|
  {
    && bs[j].key < SLOT_COUNT && bs[j].data != []
    && ix[bs[j].key].lo as int == Start(bs, j)
    && ix[bs[j].key].hi as int == Start(bs, j) + |bs[j].data| - 1
  }

  /** The inclusive ranges of the used slots tile [0, total); the other slots are marked empty. */
  ghost predicate IndexAgrees(ix: seq<Pair>, bs: seq<SlotBlock>) {
    && |ix| == SLOT_COUNT && Distinct(bs) && Total(bs) <= 0xFF
    && (forall j :: 0 <= j < |bs| ==> SlotPlaced(ix, bs, j))
    && (forall i :: 0 <= i < SLOT_COUNT && i !in BlockKeys(bs) ==> ix[i].lo == NO_KEY)
  }

  lemma UsedSlot(ix: seq<Pair>, bs: seq<SlotBlock>, num: nat) returns (j: nat)
    requires IndexAgrees(ix, bs) && num < SLOT_COUNT && ix[num].lo != NO_KEY
    ensures j < |bs| && bs[j].key == num && SlotPlaced(ix, bs, j) && num in BlockKeys(bs)
  {
    j :| 0 <= j < |bs| && bs[j].key == num;
  }

  lemma EmptySlot(ix: seq<Pair>, bs: seq<SlotBlock>, num: nat)
    requires IndexAgrees(ix, bs) && num < SLOT_COUNT && ix[num].lo == NO_KEY
    ensures num !in BlockKeys(bs)
  {
    if num in BlockKeys(bs) {
      var j :| 0 <= j < |bs| && bs[j].key == num;
      assert SlotPlaced(ix, bs, j);
      BlockFits(bs, j);
    }
  }

  predicate After(p: Pair, end: int) {
    p.lo != NO_KEY && p.lo > end
  }

  /** What deleting the range that ends at `end` does to the entry of another slot. */
  function ShiftedRange(p: Pair, end: int, len: nat): Pair {
    if After(p, end) then Pair(Wrap8(p.lo - len), Wrap8(p.hi - len)) else p
  }

  ghost predicate RangesShifted(ix: seq<Pair>, now: seq<Pair>, num: nat, end: int, len: nat, n: nat) {
    && |ix| == |now| == SLOT_COUNT
    && forall i :: 0 <= i < SLOT_COUNT ==>
         now[i] == if i == num then NO_RANGE else if i < n then ShiftedRange(ix[i], end, len) else ix[i]
  }

  lemma {:induction false} RangeAfterDelete(ix: seq<Pair>, bs: seq<SlotBlock>, j: nat, now: seq<Pair>, k: nat)
    requires IndexAgrees(ix, bs) && j < |bs| && k < |bs| - 1
    requires RangesShifted(ix, now, bs[j].key, Start(bs, j) + |bs[j].data| - 1, |bs[j].data|, SLOT_COUNT)
    ensures SlotPlaced(now, Without(bs, j), k)
  {
    hide Start;
    var k' := if k < j then k else k + 1;
    assert SlotPlaced(ix, bs, k') && SlotPlaced(ix, bs, j);
    assert bs[k'].key != bs[j].key && Without(bs, j)[k] == bs[k'];
    StartWithout(bs, j, k);
    BlockFits(bs, k');
    if k < j {
      StartOrder(bs, k, j);
    } else {
      StartWithoutAbove(bs, j, k);
      StartOrder(bs, j, k');
    }
  }

  lemma {:induction false} DeleteAgrees(ix: seq<Pair>, bs: seq<SlotBlock>, j: nat, now: seq<Pair>)
    requires IndexAgrees(ix, bs) && j < |bs|
    requires RangesShifted(ix, now, bs[j].key, Start(bs, j) + |bs[j].data| - 1, |bs[j].data|, SLOT_COUNT)
    ensures IndexAgrees(now, Without(bs, j))
  {
    hide Start, SlotPlaced;
    var r := Without(bs, j);
    KeysWithout(bs, j);
    TotalWithout(bs, j);
    forall k | 0 <= k < |r|
      ensures SlotPlaced(now, r, k)
    {
      RangeAfterDelete(ix, bs, j, now, k);
    }
  }

  lemma {:induction false} AppendAgrees(ix: seq<Pair>, bs: seq<SlotBlock>, num: nat, data: seq<Pair>)
    requires IndexAgrees(ix, bs) && num < SLOT_COUNT && num !in BlockKeys(bs)
    requires data != [] && Total(bs) + |data| <= 0xFF
    ensures IndexAgrees(ix[num := Pair(Total(bs), Total(bs) + |data| - 1)], bs + [Block(num, data)])
  {
    hide Start;
    var b, r, now := Block(num, data), bs + [Block(num, data)], ix[num := Pair(Total(bs), Total(bs) + |data| - 1)];
    TotalAppend(bs, b);
    KeysAppend(bs, b);
    forall j | 0 <= j < |r|
      ensures SlotPlaced(now, r, j)
    {
      if j < |bs| {
        StartInAppend(bs, b, j);
        assert SlotPlaced(ix, bs, j) && bs[j].key in BlockKeys(bs);
      }
    }
  }

  /**
   * n is the highest end among the ranges of the first k slots that start after `end`, or `end`
   * when there are none.
   */
  ghost predicate HighestEnd(ix: seq<Pair>, end: int, k: nat, n: int)
    requires k <= |ix|
  {
    && n >= end
    && (forall i :: 0 <= i < k && After(ix[i], end) ==> ix[i].hi as int <= n)
    && (n > end ==> exists i :: 0 <= i < k && After(ix[i], end) && ix[i].hi as int == n)
  }

  /** No used range reaches past the total, and some range ends there. */
  lemma RangeBelowTotal(ix: seq<Pair>, bs: seq<SlotBlock>, i: nat)
    requires IndexAgrees(ix, bs) && i < SLOT_COUNT && ix[i].lo != NO_KEY
    ensures ix[i].lo <= ix[i].hi && ix[i].hi as int + 1 <= Total(bs)
  {
    var j := UsedSlot(ix, bs, i);
    BlockFits(bs, j);
  }

  lemma LastRange(ix: seq<Pair>, bs: seq<SlotBlock>)
    requires IndexAgrees(ix, bs) && bs != []
    ensures bs[|bs| - 1].key < SLOT_COUNT
    ensures ix[bs[|bs| - 1].key].lo != NO_KEY && ix[bs[|bs| - 1].key].hi as int + 1 == Total(bs)
  {
    assert SlotPlaced(ix, bs, |bs| - 1);
  }

  /** The last used range ends where the records end. */
  lemma EndOfRanges(ix: seq<Pair>, bs: seq<SlotBlock>, n: int)
    requires IndexAgrees(ix, bs) && HighestEnd(ix, -1, SLOT_COUNT, n)
    ensures n + 1 == Total(bs)
  {
    hide SlotPlaced, Distinct;
    if bs != [] {
      LastRange(ix, bs);
    }
    if n >= 0 {
      var i :| 0 <= i < SLOT_COUNT && After(ix[i], -1) && ix[i].hi as int == n;
      RangeBelowTotal(ix, bs, i);
    }
  }

  /** The same for the ranges behind block j, counting from its own end. */
  lemma EndBehind(ix: seq<Pair>, bs: seq<SlotBlock>, j: nat, end: nat, n: int)
    requires IndexAgrees(ix, bs) && j < |bs| && end + 1 == Start(bs, j) + |bs[j].data|
    requires HighestEnd(ix, end, SLOT_COUNT, n)
    ensures n + 1 == Total(bs)
  {
    hide SlotPlaced, Distinct, Start;
    LastRange(ix, bs);
    if n > end {
      var i :| 0 <= i < SLOT_COUNT && After(ix[i], end) && ix[i].hi as int == n;
      RangeBelowTotal(ix, bs, i);
    }
    BlockFits(bs, j);
    LastBehind(ix, bs, j);
  }

  lemma LastBehind(ix: seq<Pair>, bs: seq<SlotBlock>, j: nat)
    requires IndexAgrees(ix, bs) && j < |bs|
    ensures bs[|bs| - 1].key < SLOT_COUNT
    ensures if j == |bs| - 1 then Start(bs, j) + |bs[j].data| == Total(bs)
            else ix[bs[|bs| - 1].key].lo as int >= Start(bs, j) + |bs[j].data|
  {
    assert SlotPlaced(ix, bs, |bs| - 1);
    if j < |bs| - 1 { StartOrder(bs, j, |bs| - 1); }
  }

  // ---- the one-pass merge of load ----

  /** The record the merge holds when it reaches key l: the first one not yet used, or else the last. */
  function Held(r: seq<Pair>, used: nat): Pair
    requires r != [] && used <= |r|
  {
    if used < |r| then r[used] else r[|r| - 1]
  }

  /** The record in hand is for key l exactly when the saved code of l is not the default. */
  lemma MergeStep(d: seq<Byte>, m: seq<Byte>, l: nat)
    requires l < |d| == |m| <= 0xFF && AllDiffs(d, m) != []
    ensures var r, used := AllDiffs(d, m), |Diff(d, m, l)|;
            && used <= |Diff(d, m, l + 1)| <= |r|
            && (Held(r, used).lo == l <==> m[l] != d[l])
            && (m[l] != d[l] ==> used < |r| && Held(r, used).hi == m[l] && |Diff(d, m, l + 1)| == used + 1)
            && (m[l] == d[l] ==> |Diff(d, m, l + 1)| == used)
  {
    var r, used := AllDiffs(d, m), |Diff(d, m, l)|;
    DiffSplits(d, m, l, |d|);
    DiffSplits(d, m, l + 1, |d|);
    if used < |r| {
      DiffAt(d, m, |d|, used);
      if m[l] != d[l] { assert Diff(d, m, l + 1)[used] == r[used]; }
    } else {
      DiffAt(d, m, l, |r| - 1);
    }
  }
}
