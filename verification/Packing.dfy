/**
 * Variable-length blocks packed one after another. The macro heap and the saved layouts both
 * keep their data this way and close the gap when a block is deleted.
 */
module Packing {
  datatype Block<K, T> = Block(key: K, data: seq<T>)

  /** Where block i begins. */
  function Start<K, T>(bs: seq<Block<K, T>>, i: nat): nat
    requires i <= |bs|
  {
    if i == 0 then 0 else Start(bs, i - 1) + |bs[i - 1].data|
  }

  /** The packed length. */
  function Total<K, T>(bs: seq<Block<K, T>>): nat { Start(bs, |bs|) }

  /** Block i lies at its start. */
  ghost predicate InPlace<K, T>(heap: seq<T>, bs: seq<Block<K, T>>, i: nat)
    requires i < |bs|
  {
    && Start(bs, i) + |bs[i].data| <= |heap|
    && heap[Start(bs, i)..Start(bs, i) + |bs[i].data|] == bs[i].data
  }

  ghost predicate Packed<K, T>(heap: seq<T>, bs: seq<Block<K, T>>) {
    && Total(bs) <= |heap|
    && forall i :: 0 <= i < |bs| ==> InPlace(heap, bs, i)
  }

  lemma PackedFits<K, T>(heap: seq<T>, bs: seq<Block<K, T>>)
    requires Packed(heap, bs)
    ensures Total(bs) <= |heap|
  {
  }

  function Without<T>(s: seq<T>, i: nat): (r: seq<T>)
    requires i < |s|
    ensures |r| == |s| - 1
    ensures forall j :: 0 <= j < |r| ==> r[j] == s[if j < i then j else j + 1]
  {
    s[..i] + s[i + 1..]
  }

  ghost function BlockKeys<K, T>(bs: seq<Block<K, T>>): set<K> {
    set i | 0 <= i < |bs| :: bs[i].key
  }

  ghost predicate Distinct<K, T>(bs: seq<Block<K, T>>) {
    forall i, j :: 0 <= i < j < |bs| ==> bs[i].key != bs[j].key
  }

  /** Blocks follow each other without overlap. */
  lemma {:induction false} StartOrder<K, T>(bs: seq<Block<K, T>>, i: nat, j: nat)
    requires i < j <= |bs|
    ensures Start(bs, i) + |bs[i].data| <= Start(bs, j)
    decreases j
  {
    if i < j - 1 { StartOrder(bs, i, j - 1); }
  }

  lemma BlockFits<K, T>(bs: seq<Block<K, T>>, i: nat)
    requires i < |bs|
    ensures Start(bs, i) + |bs[i].data| <= Total(bs)
  {
    StartOrder(bs, i, |bs|);
  }

  lemma OneBlockPerByte<K, T>(bs: seq<Block<K, T>>, i: nat, j: nat, x: nat)
    requires i < |bs| && Start(bs, i) <= x < Start(bs, i) + |bs[i].data|
    requires j < |bs| && Start(bs, j) <= x < Start(bs, j) + |bs[j].data|
    ensures i == j
  {
    if i < j { StartOrder(bs, i, j); }
    if j < i { StartOrder(bs, j, i); }
  }

  lemma {:induction false} SomeBlockCovers<K, T>(bs: seq<Block<K, T>>, n: nat, x: nat) returns (i: nat)
    requires n <= |bs| && x < Start(bs, n)
    ensures i < n && Start(bs, i) <= x < Start(bs, i) + |bs[i].data|
    decreases n
  {
    if x >= Start(bs, n - 1) { i := n - 1; } else { i := SomeBlockCovers(bs, n - 1, x); }
  }

  // ---- appending ----

  lemma {:induction false} StartInAppend<K, T>(bs: seq<Block<K, T>>, b: Block<K, T>, i: nat)
    requires i <= |bs|
    ensures Start(bs + [b], i) == Start(bs, i)
    decreases i
  {
    if i > 0 { StartInAppend(bs, b, i - 1); }
  }

  lemma TotalAppend<K, T>(bs: seq<Block<K, T>>, b: Block<K, T>)
    ensures Start(bs + [b], |bs|) == Total(bs) && Total(bs + [b]) == Total(bs) + |b.data|
  {
    StartInAppend(bs, b, |bs|);
  }

  /** Writing a block right after the others packs it. */
  lemma PackedAppend<K, T>(heap: seq<T>, bs: seq<Block<K, T>>, b: Block<K, T>, now: seq<T>)
    requires Packed(heap, bs) && Total(bs) + |b.data| <= |now|
    requires now[..Total(bs)] == heap[..Total(bs)] && now[Total(bs)..Total(bs) + |b.data|] == b.data
    ensures Packed(now, bs + [b])
  {
    var r := bs + [b];
    TotalAppend(bs, b);
    forall i | 0 <= i < |r|
      ensures InPlace(now, r, i)
    {
      if i < |bs| {
        StartInAppend(bs, b, i);
        assert InPlace(heap, bs, i);
        BlockFits(bs, i);
        SamePrefix(heap, now, Total(bs), Start(bs, i), |bs[i].data|);
      }
    }
  }

  lemma SamePrefix<T>(a: seq<T>, b: seq<T>, n: nat, from: nat, len: nat)
    requires n <= |a| && n <= |b| && a[..n] == b[..n] && from + len <= n
    ensures a[from..from + len] == b[from..from + len]
  {
    assert a[..n][from..from + len] == a[from..from + len];
    assert b[..n][from..from + len] == b[from..from + len];
  }

  /** Bytes past the packed blocks do not matter. */
  lemma PackedPrefix<K, T>(heap: seq<T>, now: seq<T>, bs: seq<Block<K, T>>)
    requires Packed(heap, bs) && Total(bs) <= |now| && now[..Total(bs)] == heap[..Total(bs)]
    ensures Packed(now, bs)
  {
    forall i | 0 <= i < |bs|
      ensures InPlace(now, bs, i)
    {
      assert InPlace(heap, bs, i);
      BlockFits(bs, i);
      SamePrefix(heap, now, Total(bs), Start(bs, i), |bs[i].data|);
    }
  }

  // ---- deleting ----

  /** Only blocks that lay above the deleted one move, and by exactly its length. */
  lemma {:induction false} StartWithout<K, T>(bs: seq<Block<K, T>>, i: nat, j: nat)
    requires i < |bs| && j <= |bs| - 1
    ensures Start(Without(bs, i), j) == if j <= i then Start(bs, j) else Start(bs, j + 1) - |bs[i].data|
    decreases j
  {
    if j > 0 { StartWithout(bs, i, j - 1); }
  }

  lemma TotalWithout<K, T>(bs: seq<Block<K, T>>, i: nat)
    requires i < |bs|
    ensures Total(Without(bs, i)) == Total(bs) - |bs[i].data|
  {
    StartWithout(bs, i, |bs| - 1);
  }

  /** Closing the gap of block i with one downward move leaves the other blocks packed. */
  lemma PackedWithout<K, T>(heap: seq<T>, bs: seq<Block<K, T>>, i: nat, now: seq<T>)
    requires Packed(heap, bs) && i < |bs|
    requires var gap, rest := Start(bs, i), Start(bs, i) + |bs[i].data|;
             gap <= rest <= Total(bs) <= |heap| && now == ClosedUp(heap, gap, rest, Total(bs))
    ensures Packed(now, Without(bs, i))
  {
    hide Start, ClosedUp, InPlace;
    var r := Without(bs, i);
    TotalWithout(bs, i);
    forall j | 0 <= j < |r|
      ensures InPlace(now, r, j)
    {
      BlockMoved(heap, bs, i, now, j);
    }
  }

  lemma BlockMoved<K, T>(heap: seq<T>, bs: seq<Block<K, T>>, i: nat, now: seq<T>, j: nat)
    requires Packed(heap, bs) && i < |bs| && j < |bs| - 1
    requires var gap, rest := Start(bs, i), Start(bs, i) + |bs[i].data|;
             gap <= rest <= Total(bs) <= |heap| && now == ClosedUp(heap, gap, rest, Total(bs))
    ensures InPlace(now, Without(bs, i), j)
  {
    hide Start, ClosedUp;
    var j' := if j < i then j else j + 1;
    assert InPlace(heap, bs, j') && Without(bs, i)[j] == bs[j'];
    if j < i { BlockBelowKept(heap, bs, i, now, j); } else { BlockAboveMoved(heap, bs, i, now, j); }
  }

  lemma BlockBelowKept<K, T>(heap: seq<T>, bs: seq<Block<K, T>>, i: nat, now: seq<T>, j: nat)
    requires j < i < |bs| && InPlace(heap, bs, j)
    requires var gap, rest := Start(bs, i), Start(bs, i) + |bs[i].data|;
             gap <= rest <= Total(bs) <= |heap| && now == ClosedUp(heap, gap, rest, Total(bs))
    ensures Start(Without(bs, i), j) == Start(bs, j) && Start(bs, j) + |bs[j].data| <= |now|
    ensures now[Start(bs, j)..Start(bs, j) + |bs[j].data|] == bs[j].data
  {
    hide Start, ClosedUp;
    StartWithout(bs, i, j);
    StartOrder(bs, j, i);
    ClosedUpKeeps(heap, Start(bs, i), Start(bs, i) + |bs[i].data|, Total(bs), Start(bs, j), |bs[j].data|);
  }

  lemma BlockAboveMoved<K, T>(heap: seq<T>, bs: seq<Block<K, T>>, i: nat, now: seq<T>, j: nat)
    requires i <= j < |bs| - 1 && InPlace(heap, bs, j + 1)
    requires var gap, rest := Start(bs, i), Start(bs, i) + |bs[i].data|;
             gap <= rest <= Total(bs) <= |heap| && now == ClosedUp(heap, gap, rest, Total(bs))
    ensures var at, len := Start(Without(bs, i), j), |bs[j + 1].data|;
            at + len <= |now| && now[at..at + len] == bs[j + 1].data
  {
    hide Start, ClosedUp;
    BlockFits(bs, j + 1);
    StartOrder(bs, i, j + 1);
    StartWithoutAbove(bs, i, j);
    ClosedUpMoves(heap, Start(bs, i), Start(bs, i) + |bs[i].data|, Total(bs), Start(bs, j + 1), |bs[j + 1].data|);
  }

  lemma StartWithoutAbove<K, T>(bs: seq<Block<K, T>>, i: nat, j: nat)
    requires i <= j < |bs| - 1
    ensures Start(Without(bs, i), j) == Start(bs, j + 1) - |bs[i].data|
  {
    StartWithout(bs, i, j);
  }

  /** Items rest..end moved down to gap; what lay behind stays. */
  function ClosedUp<T>(heap: seq<T>, gap: nat, rest: nat, end: nat): (r: seq<T>)
    requires gap <= rest <= end <= |heap|
    ensures |r| == |heap|
    ensures forall i :: 0 <= i < |r| ==> r[i] == if gap <= i < gap + (end - rest) then heap[i + (rest - gap)]
            else heap[i]
  {
    heap[..gap] + heap[rest..end] + heap[gap + (end - rest)..]
  }

  lemma ClosedUpKeeps<T>(heap: seq<T>, gap: nat, rest: nat, end: nat, at: nat, len: nat)
    requires gap <= rest <= end <= |heap| && at + len <= gap
    ensures ClosedUp(heap, gap, rest, end)[at..at + len] == heap[at..at + len]
  {
  }

  lemma ClosedUpMoves<T>(heap: seq<T>, gap: nat, rest: nat, end: nat, at: nat, len: nat)
    requires gap <= rest <= at && at + len <= end <= |heap|
    ensures var now, to := ClosedUp(heap, gap, rest, end), at - (rest - gap);
            now[to..to + len] == heap[at..at + len]
  {
    var now, to := ClosedUp(heap, gap, rest, end), at - (rest - gap);
    var x, y := now[to..to + len], heap[at..at + len];
    forall k | 0 <= k < len
      ensures x[k] == y[k]
    {
      assert x[k] == now[to + k];
    }
  }

  lemma KeysWithout<K, T>(bs: seq<Block<K, T>>, i: nat)
    requires Distinct(bs) && i < |bs|
    ensures Distinct(Without(bs, i)) && BlockKeys(Without(bs, i)) == BlockKeys(bs) - {bs[i].key}
  {
    var r := Without(bs, i);
    forall k | k in BlockKeys(bs) && k != bs[i].key
      ensures k in BlockKeys(r)
    {
      var j :| 0 <= j < |bs| && bs[j].key == k;
      assert r[if j < i then j else j - 1].key == k;
    }
  }

  lemma KeysAppend<K, T>(bs: seq<Block<K, T>>, b: Block<K, T>)
    requires Distinct(bs) && b.key !in BlockKeys(bs)
    ensures Distinct(bs + [b]) && BlockKeys(bs + [b]) == BlockKeys(bs) + {b.key}
  {
    var r := bs + [b];
    assert forall i :: 0 <= i < |bs| ==> r[i] == bs[i];
    assert r[|bs|] == b;
    forall k | k in BlockKeys(bs)
      ensures k in BlockKeys(r)
    {
      var j :| 0 <= j < |bs| && bs[j].key == k;
      assert r[j].key == k;
    }
  }
}
