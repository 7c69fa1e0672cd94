/**
 * The firmware's byte sorts (sort.c): an insertion sort and a bottom-up heapsort whose hole
 * first sinks to a leaf and whose displaced element then climbs to its place.
 */
module Sorting {
  import opened Bytes

  ghost predicate Sorted(s: seq<Byte>) {
    forall i, j :: 0 <= i < j < |s| ==> s[i] <= s[j]
  }

  ghost predicate Perm(a: seq<Byte>, b: seq<Byte>) { multiset(a) == multiset(b) }

  lemma SwapIsPerm(s: seq<Byte>, i: nat, j: nat)
    requires i < |s| && j < |s|
    ensures Perm(s[i := s[j]][j := s[i]], s)
  {
  }

  /** Moving the hole from h to c, filling h with what was at c, permutes the contents with k in the hole. */
  lemma HoleMoves(a: seq<Byte>, h: nat, c: nat, k: Byte)
    requires h < |a| && c < |a| && h != c
    ensures Perm(a[h := a[c]][c := k], a[h := k])
  {
    var s := a[h := k];
    SwapIsPerm(s, h, c);
    assert s[h := s[c]][c := s[h]] == a[h := a[c]][c := k];
  }

  lemma LastIsLargest(a: seq<Byte>, x: Byte)
    requires Sorted(a) && a != [] && x in multiset(a)
    ensures x <= a[|a| - 1]
  {
    assert x in a;
  }

  lemma SameLast(a: seq<Byte>, b: seq<Byte>)
    requires Sorted(a) && Sorted(b) && Perm(a, b) && a != []
    ensures |a| == |b| && a[|a| - 1] == b[|b| - 1]
  {
    hide Sorted;
    assert |multiset(a)| == |a| && |multiset(b)| == |b|;
    assert a[|a| - 1] in multiset(a) && b[|b| - 1] in multiset(b);
    LastIsLargest(a, b[|b| - 1]);
    LastIsLargest(b, a[|a| - 1]);
  }

  lemma FrontPerm(a: seq<Byte>, b: seq<Byte>)
    requires Perm(a, b) && a != [] && |a| == |b| && a[|a| - 1] == b[|b| - 1]
    ensures Perm(a[..|a| - 1], b[..|b| - 1])
  {
    PrefixPerm(a[..|a| - 1], b[..|b| - 1], [a[|a| - 1]], a, b);
  }

  lemma PrefixPerm(x: seq<Byte>, y: seq<Byte>, z: seq<Byte>, a: seq<Byte>, b: seq<Byte>)
    requires a == x + z && b == y + z && Perm(a, b)
    ensures Perm(x, y)
  {
    assert multiset(x) == multiset(a) - multiset(z);
    assert multiset(y) == multiset(b) - multiset(z);
  }

  /** A sorted permutation is unique, so all sorts agree. */
  lemma {:induction false} SortedUnique(a: seq<Byte>, b: seq<Byte>)
    requires Sorted(a) && Sorted(b) && Perm(a, b)
    ensures a == b
  {
    hide Perm;
    if a == [] {
      EmptyPerm(b);
    } else {
      var n := |a| - 1;
      SameLast(a, b);
      FrontPerm(a, b);
      SortedUnique(a[..n], b[..n]);
      assert a == a[..n] + [a[n]] && b == b[..n] + [b[n]];
    }
  }

  lemma EmptyPerm(b: seq<Byte>)
    requires Perm([], b)
    ensures b == []
  {
    assert |multiset(b)| == |b|;
  }

  // ---- insertion sort ----

  /** Sorts the first n bytes. */
  method InsertionSort(base: array<Byte>, n: nat)
    requires n <= base.Length
    modifies base
    ensures Sorted(base[..n]) && Perm(base[..n], old(base[..n])) && base[n..] == old(base[n..])
  {
    hide Perm;
    ghost var was := base[..];
    PermSelf(was);
    var i := 1;
    while i < n
      invariant 0 < i && (i <= n || n <= 1)
      invariant Sorted(base[..if i <= n then i else n])
      invariant Perm(base[..], was) && base[n..] == was[n..]
    {
      ghost var mid := base[..];
      InsertNext(base, i);
      PermTwice(base[..], mid, was);
      assert base[n..] == mid[n..];
      i := i + 1;
    }
    assert base[..] == base[..n] + was[n..] && was == was[..n] + was[n..];
    PrefixPerm(base[..n], was[..n], was[n..], base[..], was);
  }

  lemma PermSelf(a: seq<Byte>)
    ensures Perm(a, a)
  {
  }

  lemma PermTwice(a: seq<Byte>, b: seq<Byte>, c: seq<Byte>)
    requires Perm(a, b) && Perm(b, c)
    ensures Perm(a, c)
  {
  }

  /** Bytes j..i-1 of was have moved up by one place, all larger than val; the hole is at j. */
  ghost predicate MovedUp(s: seq<Byte>, was: seq<Byte>, j: nat, i: nat, val: Byte) {
    && |s| == |was| && j <= i < |s|
    && (forall k :: 0 <= k < j || i < k < |s| ==> s[k] == was[k])
    && (forall k {:trigger s[k]} :: j < k <= i ==> s[k] == was[k - 1] && val < s[k])
  }

  lemma MoveNone(was: seq<Byte>, i: nat)
    requires i < |was|
    ensures MovedUp(was, was, i, i, was[i]) && was[i := was[i]] == was
  {
  }

  lemma MoveUpOne(s: seq<Byte>, was: seq<Byte>, j: nat, i: nat, val: Byte)
    requires MovedUp(s, was, j, i, val) && j > 0 && s[j - 1] > val
    ensures MovedUp(s[j := s[j - 1]], was, j - 1, i, val)
  {
  }

  lemma InsertedSorted(s: seq<Byte>, was: seq<Byte>, j: nat, i: nat, val: Byte)
    requires MovedUp(s, was, j, i, val) && Sorted(was[..i]) && (j > 0 ==> s[j - 1] <= val)
    ensures Sorted(s[j := val][..i + 1])
    ensures forall k :: i < k < |s| ==> s[j := val][k] == was[k]
  {
    var now := s[j := val][..i + 1];
    forall p, q | 0 <= p < q < |now|
      ensures now[p] <= now[q]
    {
      assert p < j ==> was[..i][p] <= was[..i][j - 1];
      if p < j < q { assert s[q] > val; }
      if p != j && q != j {
        var p', q' := if p < j then p else p - 1, if q < j then q else q - 1;
        assert was[..i][p'] <= was[..i][q'];
      }
    }
  }

  method CopyUp(base: array<Byte>, j: nat)
    requires 0 < j < base.Length
    modifies base
    ensures base[..] == old(base[..])[j := old(base[j - 1])]
  {
    base[j] := base[j - 1];
  }

  /** Inserts the byte at i into the sorted bytes before it. */
  method InsertNext(base: array<Byte>, i: nat)
    requires 0 < i < base.Length && Sorted(base[..i])
    modifies base
    ensures Sorted(base[..i + 1]) && Perm(base[..], old(base[..]))
    ensures forall k :: i < k < base.Length ==> base[k] == old(base[k])
  {
    hide Perm, Sorted, Inserting;
    var val := base[i];
    var j := i;
    ghost var was := base[..];
    InsertBegins(was, i);
    while j > 0 && base[j - 1] > val
      invariant 0 <= j <= i && Inserting(base[..], was, j, i, val)
    {
      InsertStep(base[..], was, j, i, val);
      CopyUp(base, j);
      j := j - 1;
    }
    InsertDone(base[..], was, j, i, val);
    base[j] := val;
  }

  ghost predicate Inserting(s: seq<Byte>, was: seq<Byte>, j: nat, i: nat, val: Byte) {
    MovedUp(s, was, j, i, val) && Perm(s[j := val], was)
  }

  lemma InsertBegins(was: seq<Byte>, i: nat)
    requires i < |was|
    ensures Inserting(was, was, i, i, was[i])
  {
    MoveNone(was, i);
  }

  lemma InsertStep(s: seq<Byte>, was: seq<Byte>, j: nat, i: nat, val: Byte)
    requires Inserting(s, was, j, i, val) && 0 < j < |s| && s[j - 1] > val
    ensures Inserting(s[j := s[j - 1]], was, j - 1, i, val)
  {
    HoleMoves(s, j, j - 1, val);
    MoveUpOne(s, was, j, i, val);
  }

  lemma InsertDone(s: seq<Byte>, was: seq<Byte>, j: nat, i: nat, val: Byte)
    requires Inserting(s, was, j, i, val) && i < |was| && Sorted(was[..i]) && (0 < j <= |s| ==> s[j - 1] <= val)
    ensures |s| == |was| && j <= i && Sorted(s[j := val][..i + 1]) && Perm(s[j := val], was)
    ensures forall k :: i < k < |s| ==> s[j := val][k] == was[k]
  {
    InsertedSorted(s, was, j, i, val);
  }

  // ---- heapsort: items are numbered from 1 ----

  function At(s: seq<Byte>, i: nat): Byte
    requires 1 <= i <= |s|
  {
    s[i - 1]
  }

  /** Items lo..n respect the heap order: no item is larger than its parent. */
  ghost predicate Heap(s: seq<Byte>, n: nat, lo: nat) {
    && n <= |s| && lo >= 1
    && forall c :: 2 * lo <= c <= n ==> At(s, c / 2) >= At(s, c)
  }

  /** The same, except that item par may be smaller than its children; its parent is not. */
  ghost predicate HeapExcept(s: seq<Byte>, n: nat, lo: nat, par: nat) {
    && n <= |s| && 1 <= lo <= par
    && (forall c :: 2 * lo <= c <= n && c / 2 != par ==> At(s, c / 2) >= At(s, c))
    && (par / 2 >= lo ==> forall c :: 2 <= c <= n && c / 2 == par ==> At(s, par / 2) >= At(s, c))
  }

  /** c is the child of par with the larger value. */
  ghost predicate LargerChild(s: seq<Byte>, n: nat, par: nat, c: nat) {
    && n <= |s| && par >= 1 && c / 2 == par && c <= n
    && forall d :: 2 <= d <= n && d / 2 == par ==> At(s, c) >= At(s, d)
  }

  function Swapped(s: seq<Byte>, i: nat, j: nat): seq<Byte>
    requires 1 <= i <= |s| && 1 <= j <= |s|
  {
    s[i - 1 := At(s, j)][j - 1 := At(s, i)]
  }

  lemma SiftStep(s: seq<Byte>, n: nat, lo: nat, par: nat, c: nat)
    requires HeapExcept(s, n, lo, par) && LargerChild(s, n, par, c) && At(s, c) > At(s, par)
    ensures HeapExcept(Swapped(s, par, c), n, lo, c)
  {
    var r := Swapped(s, par, c);
    assert forall x :: 1 <= x <= |s| ==> At(r, x) == if x == par then At(s, c) else if x == c then At(s, par)
        else At(s, x);
    forall d | 2 * lo <= d <= n && d / 2 != c
      ensures At(r, d / 2) >= At(r, d)
    {
      if d / 2 == par { assert At(s, c) >= At(s, d); } else if d != par { assert At(s, d / 2) >= At(s, d); }
    }
    forall d | 2 <= d <= n && d / 2 == c
      ensures At(r, c / 2) >= At(r, d)
    {
      assert At(s, d / 2) >= At(s, d);
    }
  }

  lemma SiftDone(s: seq<Byte>, n: nat, lo: nat, par: nat)
    requires HeapExcept(s, n, lo, par)
    requires forall c :: 2 <= c <= n && c / 2 == par ==> At(s, par) >= At(s, c)
    ensures Heap(s, n, lo)
  {
  }

  method PickChild(base: array<Byte>, n: Word, par: Word) returns (child: Word)
    requires n <= base.Length && n < 0x8000 && 1 <= par && 2 * par <= n
    ensures child == 2 * par || child == 2 * par + 1
    ensures LargerChild(base[..], n, par, child)
  {
    child := par * 2;
    if child < n && base[child - 1] < base[child] {
      child := child + 1;
    }
  }

  method SwapItems(base: array<Byte>, i: nat, j: nat)
    requires 1 <= i <= base.Length && 1 <= j <= base.Length
    modifies base
    ensures base[..] == Swapped(old(base[..]), i, j) && Perm(base[..], old(base[..]))
    ensures forall k :: 0 <= k < base.Length && k != i - 1 && k != j - 1 ==> base[k] == old(base[k])
  {
    SwapIsPerm(base[..], i - 1, j - 1);
    base[i - 1], base[j - 1] := base[j - 1], base[i - 1];
  }

  /** Sinks item init, which may be smaller than its children, to its place. */
  method SiftDown(base: array<Byte>, n: Word, init: Word)
    requires n <= base.Length && n < 0x8000 && 1 <= init <= n && Heap(base[..], n, init + 1)
    modifies base
    ensures Heap(base[..], n, init) && Perm(base[..], old(base[..]))
    ensures forall k :: n <= k < base.Length ==> base[k] == old(base[k])
  {
    hide Heap, HeapExcept, LargerChild, Perm, Swapped;
    ghost var was := base[..];
    PermSelf(was);
    SiftBegins(was, n, init);
    var par := init;
    while par * 2 <= n
      invariant init <= par <= n && HeapExcept(base[..], n, init, par) && Perm(base[..], was)
      invariant forall k :: n <= k < base.Length ==> base[k] == was[k]
      decreases n - par
    {
      var child := PickChild(base, n, par);
      ghost var s := base[..];
      if base[child - 1] <= base[par - 1] {
        SiftDoneAt(s, n, init, par, child);
        return;
      }
      SiftStep(s, n, init, par, child);
      SwapItems(base, par, child);
      PermTwice(base[..], s, was);
      par := child;
    }
    SiftAtLeaf(base[..], n, init, par);
  }

  lemma SiftBegins(s: seq<Byte>, n: nat, init: nat)
    requires Heap(s, n, init + 1) && init >= 1
    ensures HeapExcept(s, n, init, init)
  {
  }

  lemma SiftDoneAt(s: seq<Byte>, n: nat, lo: nat, par: nat, c: nat)
    requires HeapExcept(s, n, lo, par) && LargerChild(s, n, par, c) && At(s, c) <= At(s, par)
    ensures Heap(s, n, lo)
  {
    SiftDone(s, n, lo, par);
  }

  lemma SiftAtLeaf(s: seq<Byte>, n: nat, lo: nat, par: nat)
    requires HeapExcept(s, n, lo, par) && par * 2 > n
    ensures Heap(s, n, lo)
  {
    SiftDone(s, n, lo, par);
  }

  // ---- extracting the maximum, bottom-up ----

  /** Heap order of items 1..n away from the hole, whose neighbours are ordered across it. */
  ghost predicate HoleHeap(s: seq<Byte>, n: nat, hole: nat) {
    && n <= |s| && 1 <= hole <= n
    && (forall c :: 2 <= c <= n && c != hole && c / 2 != hole ==> At(s, c / 2) >= At(s, c))
    && (hole >= 2 ==> forall c :: 2 <= c <= n && c / 2 == hole ==> At(s, hole / 2) >= At(s, c))
  }

  ghost predicate ChildrenAtMost(s: seq<Byte>, n: nat, par: nat, k: Byte) {
    n <= |s| && forall c :: 2 <= c <= n && c / 2 == par ==> At(s, c) <= k
  }

  /** Filling the hole from its larger child moves the hole there. */
  lemma HoleSinks(s: seq<Byte>, n: nat, hole: nat, c: nat)
    requires HoleHeap(s, n, hole) && LargerChild(s, n, hole, c)
    ensures HoleHeap(s[hole - 1 := At(s, c)], n, c)
  {
    var r := s[hole - 1 := At(s, c)];
    ItemChanged(s, hole, At(s, c));
    forall d | 2 <= d <= n && d != c && d / 2 != c
      ensures At(r, d / 2) >= At(r, d)
    {
      if d / 2 == hole { assert At(s, c) >= At(s, d); }
      else if d == hole { assert At(s, hole / 2) >= At(s, c); }
      else { assert At(s, d / 2) >= At(s, d); }
    }
    forall d | 2 <= d <= n && d / 2 == c
      ensures At(r, c / 2) >= At(r, d)
    {
      assert At(s, d / 2) >= At(s, d);
    }
  }

  lemma ItemChanged(s: seq<Byte>, i: nat, v: Byte)
    requires 1 <= i <= |s|
    ensures forall x :: 1 <= x <= |s| ==> At(s[i - 1 := v], x) == if x == i then v else At(s, x)
  {
    forall x | 1 <= x <= |s|
      ensures At(s[i - 1 := v], x) == if x == i then v else At(s, x)
    {
      assert s[i - 1 := v][x - 1] == if x - 1 == i - 1 then v else s[x - 1];
    }
  }

  /** Filling the hole from its smaller parent moves the hole up; what lies below stays at most k. */
  lemma HoleClimbs(s: seq<Byte>, n: nat, hole: nat, k: Byte)
    requires HoleHeap(s, n, hole) && hole >= 2 && At(s, hole / 2) <= k && ChildrenAtMost(s, n, hole, k)
    ensures HoleHeap(s[hole - 1 := At(s, hole / 2)], n, hole / 2)
    ensures ChildrenAtMost(s[hole - 1 := At(s, hole / 2)], n, hole / 2, k)
  {
    var g, r := hole / 2, s[hole - 1 := At(s, hole / 2)];
    ItemChanged(s, hole, At(s, g));
    forall d | 2 <= d <= n && d != g && d / 2 != g
      ensures At(r, d / 2) >= At(r, d)
    {
      if d / 2 == hole { assert At(s, g) >= At(s, d); } else { assert At(s, d / 2) >= At(s, d); }
    }
    forall d | 2 <= d <= n && d / 2 == g
      ensures At(r, d) <= At(s, g)
    {
      if d != hole { assert At(s, d / 2) >= At(s, d); }
    }
    if g >= 2 { assert At(s, g / 2) >= At(s, g); }
  }

  /** The displaced element settles below a larger parent or at the root. */
  lemma HoleFilled(s: seq<Byte>, n: nat, hole: nat, k: Byte)
    requires HoleHeap(s, n, hole) && ChildrenAtMost(s, n, hole, k) && (hole == 1 || At(s, hole / 2) >= k)
    ensures Heap(s[hole - 1 := k], n, 1)
  {
    var r := s[hole - 1 := k];
    ItemChanged(s, hole, k);
    forall d | 2 <= d <= n
      ensures At(r, d / 2) >= At(r, d)
    {
      if d / 2 == hole { assert At(s, d) <= k; } else if d != hole { assert At(s, d / 2) >= At(s, d); }
    }
  }

  lemma {:induction false} RootIsMax(s: seq<Byte>, n: nat, i: nat)
    requires Heap(s, n, 1) && 1 <= i <= n
    ensures At(s, i) <= At(s, 1)
    decreases i
  {
    if i > 1 {
      assert At(s, i / 2) >= At(s, i);
      RootIsMax(s, n, i / 2);
    }
  }

  /**
   * While the heap of n items is rebuilt: with k put in the hole the array is a permutation of
   * was, the part behind the heap is in place, and nothing in the heap exceeds top.
   */
  ghost predicate Extracting(s: seq<Byte>, was: seq<Byte>, n: nat, hole: nat, k: Byte, top: Byte) {
    && |s| == |was| && HoleHeap(s, n, hole) && Perm(s[hole - 1 := k], was)
    && k <= top && (forall i :: 0 <= i < n ==> s[i] <= top)
  }

  ghost predicate SameFrom(s: seq<Byte>, t: seq<Byte>, n: nat) {
    |s| == |t| && forall i :: n <= i < |s| ==> s[i] == t[i]
  }

  lemma ExtractBegins(was: seq<Byte>, n: nat)
    requires Heap(was, n + 1, 1) && n >= 1
    ensures Extracting(was[n := was[0]], was, n, 1, was[n], was[0])
  {
    var s := was[n := was[0]];
    SwapIsPerm(was, 0, n);
    assert s[0 := was[n]] == was[0 := was[n]][n := was[0]];
    forall i | 0 <= i < n + 1
      ensures was[i] <= was[0]
    {
      RootIsMax(was, n + 1, i + 1);
      assert At(was, i + 1) == was[i] && At(was, 1) == was[0];
    }
    forall c | 2 <= c <= n && c != 1 && c / 2 != 1
      ensures At(s, c / 2) >= At(s, c)
    {
      assert At(was, c / 2) >= At(was, c);
    }
  }

  /** The item at g fills the hole and leaves a hole behind. */
  lemma HoleTakes(s: seq<Byte>, was: seq<Byte>, n: nat, hole: nat, g: nat, k: Byte, top: Byte)
    requires Extracting(s, was, n, hole, k, top) && 1 <= hole <= n <= |s| && 1 <= g <= n && g != hole
    requires HoleHeap(s[hole - 1 := s[g - 1]], n, g)
    ensures Extracting(s[hole - 1 := s[g - 1]], was, n, g, k, top) && SameFrom(s[hole - 1 := s[g - 1]], s, n)
  {
    hide HoleHeap, Perm;
    TakenIsPerm(s, was, hole - 1, g - 1, k);
  }

  lemma TakenIsPerm(s: seq<Byte>, was: seq<Byte>, h: nat, c: nat, k: Byte)
    requires h < |s| && c < |s| && h != c && Perm(s[h := k], was)
    ensures Perm(s[h := s[c]][c := k], was)
  {
    HoleMoves(s, h, c, k);
  }

  lemma ExtractSinks(s: seq<Byte>, was: seq<Byte>, n: nat, hole: nat, k: Byte, top: Byte, c: nat)
    requires Extracting(s, was, n, hole, k, top) && LargerChild(s, n, hole, c)
    ensures Extracting(s[hole - 1 := s[c - 1]], was, n, c, k, top) && SameFrom(s[hole - 1 := s[c - 1]], s, n)
  {
    hide HoleHeap, LargerChild, Perm, SameFrom;
    HoleBounds(s, n, hole);
    ChildBounds(s, n, hole, c);
    HoleSinks(s, n, hole, c);
    HoleTakes(s, was, n, hole, c, k, top);
  }

  lemma HoleBounds(s: seq<Byte>, n: nat, hole: nat)
    requires HoleHeap(s, n, hole)
    ensures 1 <= hole <= n <= |s|
  {
  }

  lemma ChildBounds(s: seq<Byte>, n: nat, par: nat, c: nat)
    requires LargerChild(s, n, par, c)
    ensures 1 <= par < c <= n <= |s|
  {
  }

  lemma ExtractClimbs(s: seq<Byte>, was: seq<Byte>, n: nat, hole: nat, k: Byte, top: Byte)
    requires Extracting(s, was, n, hole, k, top) && ChildrenAtMost(s, n, hole, k)
    requires hole >= 2 && s[hole / 2 - 1] <= k
    ensures var r := s[hole - 1 := s[hole / 2 - 1]];
            Extracting(r, was, n, hole / 2, k, top) && ChildrenAtMost(r, n, hole / 2, k) && SameFrom(r, s, n)
  {
    hide HoleHeap, ChildrenAtMost, Perm, SameFrom;
    HoleBounds(s, n, hole);
    HoleClimbs(s, n, hole, k);
    HoleTakes(s, was, n, hole, hole / 2, k, top);
  }

  lemma ExtractDone(s: seq<Byte>, was: seq<Byte>, n: nat, hole: nat, k: Byte, top: Byte)
    requires Extracting(s, was, n, hole, k, top) && ChildrenAtMost(s, n, hole, k)
    requires hole == 1 || s[hole / 2 - 1] >= k
    ensures var r := s[hole - 1 := k];
            Heap(r, n, 1) && Perm(r, was) && SameFrom(r, s, n) && forall i :: 0 <= i < n ==> r[i] <= top
  {
    HoleFilled(s, n, hole, k);
  }

  lemma SameFromTwice(a: seq<Byte>, b: seq<Byte>, c: seq<Byte>, n: nat)
    requires SameFrom(a, b, n) && SameFrom(b, c, n)
    ensures SameFrom(a, c, n)
  {
  }

  lemma SameFromSelf(a: seq<Byte>, n: nat)
    ensures SameFrom(a, a, n)
  {
  }

  lemma HoleInside(s: seq<Byte>, was: seq<Byte>, n: nat, hole: nat, k: Byte, top: Byte)
    requires Extracting(s, was, n, hole, k, top)
    ensures 1 <= hole <= n <= |s| == |was|
    ensures hole * 2 > n ==> ChildrenAtMost(s, n, hole, k)
  {
  }

  /** The hole sinks from the root to a leaf. */
  method SinkHole(base: array<Byte>, n: Word, ghost was: seq<Byte>, ghost k: Byte, ghost top: Byte) returns (hole: Word)
    requires 1 <= n < 0x8000 && n <= base.Length && Extracting(base[..], was, n, 1, k, top)
    modifies base
    ensures 1 <= hole <= n && Extracting(base[..], was, n, hole, k, top) && ChildrenAtMost(base[..], n, hole, k)
    ensures SameFrom(base[..], old(base[..]), n)
  {
    hide Extracting, HoleHeap, LargerChild, SameFrom, ChildrenAtMost;
    ghost var start := base[..];
    SameFromSelf(start, n);
    hole := 1;
    while hole * 2 <= n
      invariant 1 <= hole <= n && Extracting(base[..], was, n, hole, k, top) && SameFrom(base[..], start, n)
      decreases n - hole
    {
      var child := PickChild(base, n, hole);
      ghost var s := base[..];
      ExtractSinks(s, was, n, hole, k, top, child);
      base[hole - 1] := base[child - 1];
      assert base[..] == s[hole - 1 := s[child - 1]];
      SameFromTwice(base[..], s, start, n);
      hole := child;
    }
    HoleInside(base[..], was, n, hole, k, top);
  }

  /** The displaced element k climbs from the hole to its place. */
  method ClimbHole(base: array<Byte>, n: Word, start: Word, k: Byte, ghost was: seq<Byte>, ghost top: Byte)
    requires 1 <= start <= n < 0x8000 && n <= base.Length
    requires Extracting(base[..], was, n, start, k, top) && ChildrenAtMost(base[..], n, start, k)
    modifies base
    ensures Heap(base[..], n, 1) && Perm(base[..], was) && SameFrom(base[..], old(base[..]), n)
    ensures forall i :: 0 <= i < n ==> base[i] <= top
  {
    hide Extracting, HoleHeap, SameFrom, ChildrenAtMost, Heap, Perm;
    ghost var first := base[..];
    SameFromSelf(first, n);
    var hole := start;
    while true
      invariant 1 <= hole <= n && SameFrom(base[..], first, n)
      invariant Extracting(base[..], was, n, hole, k, top) && ChildrenAtMost(base[..], n, hole, k)
      decreases hole
    {
      ghost var s := base[..];
      var par: Word := hole / 2;
      if hole == 1 || k < base[par - 1] {
        ExtractDone(s, was, n, hole, k, top);
        base[hole - 1] := k;
        assert base[..] == s[hole - 1 := k];
        SameFromTwice(base[..], s, first, n);
        return;
      }
      ExtractClimbs(s, was, n, hole, k, top);
      base[hole - 1] := base[par - 1];
      assert base[..] == s[hole - 1 := s[hole / 2 - 1]];
      SameFromTwice(base[..], s, first, n);
      hole := par;
    }
  }

  /** Moves the largest of n + 1 items behind the heap and rebuilds it. */
  method ExtractMax(base: array<Byte>, n: Word)
    requires 1 <= n < 0x8000 && n < base.Length && Heap(base[..], n + 1, 1)
    modifies base
    ensures Heap(base[..], n, 1) && Perm(base[..], old(base[..]))
    ensures base[n] == old(base[0]) && forall i :: n < i < base.Length ==> base[i] == old(base[i])
    ensures forall i :: 0 <= i < n ==> base[i] <= base[n]
  {
    hide Extracting, HoleHeap, Heap, Perm, ChildrenAtMost;
    ghost var was := base[..];
    ExtractBegins(was, n);
    var k := base[n];
    base[n] := base[0];
    assert base[..] == was[n := was[0]];
    ghost var s0 := base[..];
    var hole := SinkHole(base, n, was, k, was[0]);
    ghost var s1 := base[..];
    ClimbHole(base, n, hole, k, was, was[0]);
    SameFromTwice(base[..], s1, s0, n);
    assert base[n] == s0[n];
  }

  /** Everything from place n on is sorted and not below anything before it. */
  ghost predicate SortedTail(s: seq<Byte>, n: nat) {
    forall i, j :: 0 <= i < j < |s| && n <= j ==> s[i] <= s[j]
  }

  /** Sorts up to 32767 bytes; every item number computed on the way fits in 16 bits. */
  method HeapSort(base: array<Byte>)
    requires base.Length < 0x8000
    modifies base
    ensures Sorted(base[..]) && Perm(base[..], old(base[..]))
  {
    hide Heap, Perm;
    PermSelf(base[..]);
    if base.Length <= 1 {
      return;
    }
    var n: Word := base.Length;
    BuildHeap(base);
    while n > 1
      invariant 1 <= n <= base.Length && Heap(base[..], n, 1)
      invariant Perm(base[..], old(base[..])) && SortedTail(base[..], n)
    {
      ghost var was := base[..];
      n := n - 1;
      ExtractMax(base, n);
      PermTwice(base[..], was, old(base[..]));
      TailGrows(was, base[..], n);
    }
  }

  lemma TailGrows(was: seq<Byte>, now: seq<Byte>, n: nat)
    requires |was| == |now| && 1 <= n < |was| && SortedTail(was, n + 1)
    requires now[n] == was[0] && (forall i :: n < i < |now| ==> now[i] == was[i])
    requires forall i :: 0 <= i < n ==> now[i] <= now[n]
    ensures SortedTail(now, n)
  {
    forall i, j | 0 <= i < j < |now| && n <= j
      ensures now[i] <= now[j]
    {
      if j > n {
        assert was[0] <= was[j];
        if i > n { assert was[i] <= was[j]; }
      }
    }
  }

  method BuildHeap(base: array<Byte>)
    requires 1 < base.Length < 0x8000
    modifies base
    ensures Heap(base[..], base.Length, 1) && Perm(base[..], old(base[..]))
    ensures SortedTail(base[..], base.Length)
  {
    hide Heap, Perm;
    PermSelf(base[..]);
    var n: Word := base.Length;
    var init: Word := n / 2 + 1;
    LeavesAreHeap(base[..], n, init);
    while init > 1
      invariant 1 <= init <= n / 2 + 1 && Heap(base[..], n, init) && Perm(base[..], old(base[..]))
    {
      ghost var was := base[..];
      init := init - 1;
      SiftDown(base, n, init);
      PermTwice(base[..], was, old(base[..]));
    }
  }

  lemma LeavesAreHeap(s: seq<Byte>, n: nat, init: nat)
    requires n <= |s| && 2 * init > n && init >= 1
    ensures Heap(s, n, init)
  {
  }

  // ---- agreement ----

  /** Both sorts give the same result on the same bytes. */
  method SortBothWays(a: array<Byte>, b: array<Byte>)
    requires a != b && a.Length < 0x8000 && a[..] == b[..]
    modifies a, b
    ensures a[..] == b[..] && Sorted(a[..])
  {
    ghost var was := a[..];
    HeapSort(a);
    assert b[..] == was;
    InsertionSort(b, b.Length);
    assert b[..b.Length] == b[..] && was[..b.Length] == was;
    SortedUnique(a[..], b[..]);
  }
}
