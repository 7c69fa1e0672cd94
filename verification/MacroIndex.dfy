/**
 * The macro lookup index (macro_index.c): a fixed array of entries, sorted by key combination,
 * with its empty entries at the end.
 */
module MacroIndex {
  import opened Bytes
  import opened Counting
  import Sorting

  const MAX_KEYS: nat := 4

  /** A key combination: sorted logical keys, unused places holding NO_KEY. */
  type Keys = k: seq<Byte> | |k| == MAX_KEYS witness [NO_KEY, NO_KEY, NO_KEY, NO_KEY]

  datatype Entry = Entry(keys: Keys, val: Word)

  datatype Option<T> = None | Some(value: T)

  const EMPTY_ENTRY: Entry := Entry([NO_KEY, NO_KEY, NO_KEY, NO_KEY], 0)

  /** What an entry's value means: the top bit tells a program id from a macro offset. */
  datatype EntryData = Macro(offset: nat) | Program(id: nat)

  predicate Fits(d: EntryData) {
    match d case Macro(x) => x < 0x8000 case Program(x) => x < 0x8000
  }

  function Unpack(val: Word): (d: EntryData)
    ensures Fits(d)
  {
    if val >= 0x8000 then Program(val - 0x8000) else Macro(val)
  }

  function Pack(d: EntryData): (val: Word)
    requires Fits(d)
    ensures Unpack(val) == d
  {
    match d case Macro(x) => x case Program(x) => x + 0x8000
  }

  // ---- order of key combinations ----

  /** The first difference of two combinations, from place j on. */
  function CompareFrom(a: Keys, b: Keys, j: nat): int
    requires j <= MAX_KEYS
    decreases MAX_KEYS - j
  {
    if j == MAX_KEYS then 0 else if a[j] != b[j] then a[j] as int - b[j] as int else CompareFrom(a, b, j + 1)
  }

  /** Lexicographic comparison of four bytes. */
  function Compare(a: Keys, b: Keys): int { CompareFrom(a, b, 0) }

  /** The combination read as a big-endian number: lexicographic order is the order of ranks. */
  function Rank(k: Keys): nat {
    0x100_0000 * (k[0] as int) + 0x1_0000 * (k[1] as int) + 0x100 * (k[2] as int) + k[3] as int
  }

  lemma CompareIsRankOrder(a: Keys, b: Keys)
    ensures Compare(a, b) < 0 <==> Rank(a) < Rank(b)
    ensures Compare(a, b) == 0 <==> a == b
    ensures Rank(a) == Rank(b) <==> a == b
  {
    assert Compare(a, b) == CompareFrom(a, b, 0);
    assert CompareFrom(a, b, 2) == if a[2] != b[2] then a[2] as int - b[2] as int else CompareFrom(a, b, 3);
    assert CompareFrom(a, b, 3) == if a[3] != b[3] then a[3] as int - b[3] as int else 0;
    if a[0] == b[0] && a[1] == b[1] && a[2] == b[2] && a[3] == b[3] {
      assert a == b;
    }
  }

  // ---- trigger keys ----

  /** Sorts the keys pressed and pads them: a trigger does not depend on the order of pressing. */
  method FormatKey(keys: array<Byte>, n: nat) returns (valid: bool)
    requires keys.Length == MAX_KEYS && n <= MAX_KEYS
    modifies keys
    ensures Sorting.Sorted(keys[..n]) && Sorting.Perm(keys[..n], old(keys[..n]))
    ensures forall i :: n <= i < MAX_KEYS ==> keys[i] == NO_KEY
    ensures valid <==> keys[0] != NO_KEY
  {
    Sorting.InsertionSort(keys, n);
    ghost var sorted := keys[..n];
    var i := n;
    while i < MAX_KEYS
      invariant n <= i <= MAX_KEYS && keys[..n] == sorted
      invariant forall k :: n <= k < i ==> keys[k] == NO_KEY
    {
      keys[i] := NO_KEY;
      i := i + 1;
    }
    valid := keys[0] != NO_KEY;
  }

  /** Formatting is determined by the set of keys pressed, however they are ordered. */
  lemma FormatIsCanonical(a: seq<Byte>, b: seq<Byte>, n: nat)
    requires |a| == |b| == MAX_KEYS && n <= MAX_KEYS
    requires Sorting.Sorted(a[..n]) && Sorting.Sorted(b[..n]) && Sorting.Perm(a[..n], b[..n])
    requires forall i :: n <= i < MAX_KEYS ==> a[i] == b[i] == NO_KEY
    ensures a == b
  {
    Sorting.SortedUnique(a[..n], b[..n]);
    assert a == a[..n] + a[n..] && b == b[..n] + b[n..];
  }

  // ---- the array ----

  predicate Used(e: Entry) { e.keys[0] != NO_KEY }

  ghost predicate Sorted(live: seq<Entry>) {
    forall i, j :: 0 <= i < j < |live| ==> Rank(live[i].keys) < Rank(live[j].keys)
  }

  /** The first n entries are in use and strictly sorted, all others are empty. */
  ghost predicate WellFormed(s: seq<Entry>, n: nat) {
    && n <= |s|
    && (forall i :: 0 <= i < n ==> Used(s[i]))
    && (forall i :: n <= i < |s| ==> !Used(s[i]))
    && Sorted(s[..n])
  }

  /** Linear scan from place i on. */
  function LinearFind(s: seq<Entry>, key: Keys, i: nat := 0): (r: Option<nat>)
    requires i <= |s|
    ensures r.Some? ==> i <= r.value < |s| && s[r.value].keys == key
    ensures r.None? <==> forall k :: i <= k < |s| ==> s[k].keys != key
    decreases |s| - i
  {
    if i == |s| then None else if s[i].keys == key then Some(i) else LinearFind(s, key, i + 1)
  }

  const EMPTY_RANK: nat := 0xFF00_0000

  lemma UsedRanksBelowEmpty(e: Entry)
    ensures Used(e) <==> Rank(e.keys) < EMPTY_RANK
  {
  }

  lemma LiveSorted(s: seq<Entry>, n: nat)
    requires WellFormed(s, n)
    ensures n <= |s| && Sorted(s[..n])
  {
  }

  lemma CountFits(s: seq<Entry>, n: nat)
    requires WellFormed(s, n)
    ensures n <= |s|
  {
  }

  lemma UsedIsBelowCount(s: seq<Entry>, n: nat, i: nat)
    requires WellFormed(s, n) && i < |s|
    ensures Used(s[i]) <==> i < n
  {
  }

  /** Empty entries order after every used one, so the whole array can be searched. */
  lemma OrderAcrossArray(s: seq<Entry>, n: nat, i: nat, j: nat)
    requires WellFormed(s, n) && i < j < |s|
    ensures i < n ==> Rank(s[i].keys) < Rank(s[j].keys)
    ensures i >= n ==> EMPTY_RANK <= Rank(s[j].keys)
  {
    UsedRanksBelowEmpty(s[i]);
    UsedRanksBelowEmpty(s[j]);
    if j < n {
      assert s[..n][i] == s[i] && s[..n][j] == s[j];
    }
  }

  lemma LinearFindUnique(s: seq<Entry>, n: nat, key: Keys, p: nat)
    requires WellFormed(s, n) && key[0] != NO_KEY && p < |s| && s[p].keys == key
    ensures p < n && LinearFind(s, key) == Some(p) && key in AsMap(s[..n])
  {
    assert s[p].keys in KeysOf(s[..n]) by { assert s[..n][p].keys == key; }
    var q := LinearFind(s, key).value;
    assert Used(s[p]) && Used(s[q]);
    SortedKeysDiffer(s[..n], p, q);
  }

  lemma CompareNeverEqual(s: seq<Entry>, key: Keys)
    requires forall i :: 0 <= i < |s| ==> Rank(s[i].keys) != Rank(key)
    ensures forall i :: 0 <= i < |s| ==> s[i].keys != key
    ensures LinearFind(s, key) == None
  {
  }

  // ---- the map an index stands for ----

  ghost function KeysOf(live: seq<Entry>): set<Keys> {
    set i | 0 <= i < |live| :: live[i].keys
  }

  ghost function PositionOf(live: seq<Entry>, k: Keys): (p: nat)
    requires k in KeysOf(live)
    ensures p < |live| && live[p].keys == k
  {
    var p :| 0 <= p < |live| && live[p].keys == k;
    p
  }

  ghost function AsMap(live: seq<Entry>): map<Keys, Word> {
    map k | k in KeysOf(live) :: live[PositionOf(live, k)].val
  }

  lemma AbsentIsUnmapped(s: seq<Entry>, n: nat, key: Keys)
    requires n <= |s| && forall i :: 0 <= i < |s| ==> s[i].keys != key
    ensures key !in AsMap(s[..n])
  {
    forall i | 0 <= i < n
      ensures s[..n][i].keys != key
    {
      assert s[..n][i] == s[i];
    }
  }

  lemma SortedKeysDiffer(live: seq<Entry>, i: nat, j: nat)
    requires Sorted(live) && i < |live| && j < |live| && live[i].keys == live[j].keys
    ensures i == j
  {
  }

  lemma AsMapAt(live: seq<Entry>, i: nat)
    requires Sorted(live) && i < |live|
    ensures live[i].keys in AsMap(live) && AsMap(live)[live[i].keys] == live[i].val
  {
    SortedKeysDiffer(live, i, PositionOf(live, live[i].keys));
  }

  /** The list of entries and the map say the same. */
  lemma AsMapCharacterised(live: seq<Entry>, m: map<Keys, Word>)
    requires Sorted(live)
    requires forall i :: 0 <= i < |live| ==> live[i].keys in m && m[live[i].keys] == live[i].val
    requires forall k :: k in m ==> k in KeysOf(live)
    ensures m == AsMap(live)
  {
    forall k | k in AsMap(live)
      ensures k in m && m[k] == AsMap(live)[k]
    {
      assert live[PositionOf(live, k)].keys == k;
    }
  }

  function Inserted(live: seq<Entry>, p: nat, e: Entry): (now: seq<Entry>)
    requires p <= |live|
    ensures |now| == |live| + 1 && now[p] == e
    ensures forall i :: 0 <= i < p ==> now[i] == live[i]
    ensures forall i :: p < i < |now| ==> now[i] == live[i - 1]
  {
    live[..p] + [e] + live[p..]
  }

  function Removed(live: seq<Entry>, p: nat): (now: seq<Entry>)
    requires p < |live|
    ensures |now| == |live| - 1
    ensures forall i :: 0 <= i < |now| ==> now[i] == live[if i < p then i else i + 1]
  {
    live[..p] + live[p + 1..]
  }

  lemma InsertKeepsOrder(live: seq<Entry>, p: nat, e: Entry)
    requires Sorted(live) && p <= |live|
    requires forall i :: 0 <= i < p ==> Rank(live[i].keys) < Rank(e.keys)
    requires forall i :: p <= i < |live| ==> Rank(e.keys) < Rank(live[i].keys)
    ensures Sorted(Inserted(live, p, e))
  {
  }

  lemma InsertKeys(live: seq<Entry>, p: nat, e: Entry)
    requires p <= |live|
    ensures KeysOf(Inserted(live, p, e)) == KeysOf(live) + {e.keys}
  {
    var now := Inserted(live, p, e);
    forall k | k in KeysOf(live)
      ensures k in KeysOf(now)
    {
      var q := PositionOf(live, k);
      assert now[if q < p then q else q + 1].keys == k;
    }
    assert now[p].keys == e.keys;
  }

  lemma InsertRefinesUpdate(live: seq<Entry>, p: nat, e: Entry)
    requires Sorted(live) && p <= |live| && e.keys !in KeysOf(live) && Sorted(Inserted(live, p, e))
    ensures AsMap(Inserted(live, p, e)) == AsMap(live)[e.keys := e.val]
  {
    var now := Inserted(live, p, e);
    var m := AsMap(live)[e.keys := e.val];
    InsertKeys(live, p, e);
    forall i | 0 <= i < |now|
      ensures now[i].keys in m && m[now[i].keys] == now[i].val
    {
      if i != p {
        var q := if i < p then i else i - 1;
        AsMapAt(live, q);
        assert now[i] == live[q];
      }
    }
    AsMapCharacterised(now, m);
  }

  lemma RemoveKeepsOrder(live: seq<Entry>, p: nat)
    requires Sorted(live) && p < |live|
    ensures Sorted(Removed(live, p)) && live[p].keys !in KeysOf(Removed(live, p))
  {
    var now := Removed(live, p);
    forall i | 0 <= i < |now|
      ensures now[i].keys != live[p].keys
    {
      if now[i].keys == live[p].keys { SortedKeysDiffer(live, if i < p then i else i + 1, p); }
    }
  }

  lemma RemoveRefinesDelete(live: seq<Entry>, p: nat)
    requires Sorted(live) && p < |live|
    ensures Sorted(Removed(live, p))
    ensures AsMap(Removed(live, p)) == AsMap(live) - {live[p].keys}
  {
    var now := Removed(live, p);
    RemoveKeepsOrder(live, p);
    assert live == Inserted(now, p, live[p]);
    InsertRefinesUpdate(now, p, live[p]);
    UpdateThenDelete(AsMap(now), live[p].keys, live[p].val);
  }

  lemma UpdateThenDelete<K, V>(m: map<K, V>, k: K, v: V)
    requires k !in m
    ensures m[k := v] - {k} == m
  {
  }

  /** A map with every value rewritten by f. */
  ghost function MapOver(m: map<Keys, Word>, f: Entry -> Entry): map<Keys, Word> {
    map k | k in m :: f(Entry(k, m[k])).val
  }

  /** Changing values in place keeps the order and maps over the map. */
  lemma RewriteRefinesMap(live: seq<Entry>, now: seq<Entry>, m: map<Keys, Word>)
    requires Sorted(live) && |now| == |live|
    requires forall i :: 0 <= i < |live| ==> now[i].keys == live[i].keys
    requires m.Keys == AsMap(live).Keys
    requires forall i :: 0 <= i < |live| && live[i].keys in m ==> m[live[i].keys] == now[i].val
    ensures Sorted(now) && AsMap(now) == m
  {
    forall i | 0 <= i < |now|
      ensures now[i].keys in m && m[now[i].keys] == now[i].val
    {
      AsMapAt(live, i);
    }
    forall k | k in m
      ensures k in KeysOf(now)
    {
      var p := PositionOf(live, k);
      assert now[p].keys == k;
    }
    AsMapCharacterised(now, m);
  }

  lemma {:induction false} AsMapSize(live: seq<Entry>)
    requires Sorted(live)
    ensures |AsMap(live)| == |live|
  {
    hide Rank;
    if live != [] {
      var p := |live| - 1;
      AsMapAt(live, p);
      RemoveRefinesDelete(live, p);
      assert Removed(live, p) == live[..p];
      AsMapSize(live[..p]);
      DeleteCount(AsMap(live), live[p].keys);
    } else {
      assert KeysOf(live) == {};
      assert AsMap(live) == map[];
    }
  }

  lemma DeleteCount<K, V>(m: map<K, V>, k: K)
    requires k in m
    ensures |m - {k}| == |m| - 1
  {
    assert m.Keys == (m - {k}).Keys + {k};
  }

  // ---- effects on the whole array ----

  lemma SetRefinesUpdate(live: seq<Entry>, p: nat, e: Entry)
    requires Sorted(live) && p < |live| && e.keys == live[p].keys
    ensures Sorted(live[p := e]) && AsMap(live[p := e]) == AsMap(live)[e.keys := e.val]
  {
    var m := AsMap(live)[e.keys := e.val];
    AsMapAt(live, p);
    forall i | 0 <= i < |live|
      ensures m[live[i].keys] == live[p := e][i].val
    {
      AsMapAt(live, i);
      if live[i].keys == e.keys { SortedKeysDiffer(live, i, p); }
    }
    RewriteRefinesMap(live, live[p := e], m);
  }

  /** Entry p got a new value. */
  lemma ValueChanged(was: seq<Entry>, now: seq<Entry>, n: nat, p: nat, val: Word)
    requires WellFormed(was, n) && p < n && now == was[p := Entry(was[p].keys, val)]
    ensures WellFormed(now, n) && now[..n] == was[..n][p := Entry(was[p].keys, val)]
    ensures AsMap(now[..n]) == AsMap(was[..n])[was[p].keys := val]
  {
    var e := Entry(was[p].keys, val);
    SetRefinesUpdate(was[..n], p, e);
    assert now[..n] == was[..n][p := e];
  }

  /** Every used entry went through f. */
  lemma ValuesMapped(was: seq<Entry>, now: seq<Entry>, n: nat, f: Entry -> Entry)
    requires WellFormed(was, n) && |now| == |was| && forall e :: f(e).keys == e.keys
    requires forall k :: 0 <= k < |was| ==> now[k] == if k < n then f(was[k]) else was[k]
    ensures WellFormed(now, n) && AsMap(now[..n]) == MapOver(AsMap(was[..n]), f)
  {
    var live, m := was[..n], MapOver(AsMap(was[..n]), f);
    forall i | 0 <= i < n
      ensures m[live[i].keys] == now[i].val
    {
      AsMapAt(live, i);
    }
    RewriteRefinesMap(live, now[..n], m);
  }

  /** The entries after p moved down by one place. */
  lemma EntryRemoved(was: seq<Entry>, now: seq<Entry>, n: nat, p: nat)
    requires WellFormed(was, n) && p < n && |now| == |was|
    requires forall k :: 0 <= k < n - 1 ==> now[k] == was[if k < p then k else k + 1]
    requires forall k :: n - 1 <= k < |now| ==> !Used(now[k])
    ensures WellFormed(now, n - 1) && now[..n - 1] == Removed(was[..n], p)
    ensures AsMap(now[..n - 1]) == AsMap(was[..n]) - {was[p].keys}
  {
    RemoveRefinesDelete(was[..n], p);
    assert now[..n - 1] == Removed(was[..n], p);
  }

  /** The entries from p on moved up by one place and p holds an absent key that belongs there. */
  lemma EntryInserted(was: seq<Entry>, now: seq<Entry>, n: nat, p: nat)
    requires WellFormed(was, n) && p <= n < |now| && |now| == |was| && Used(now[p])
    requires forall k :: 0 <= k <= n ==> k == p || now[k] == was[if k < p then k else k - 1]
    requires forall k :: n < k < |now| ==> now[k] == was[k]
    requires now[p].keys !in KeysOf(was[..n])
    requires forall i :: 0 <= i < p ==> Rank(was[i].keys) < Rank(now[p].keys)
    requires forall i :: p <= i < n ==> Rank(now[p].keys) < Rank(was[i].keys)
    ensures WellFormed(now, n + 1) && now[..n + 1] == Inserted(was[..n], p, now[p])
    ensures AsMap(now[..n + 1]) == AsMap(was[..n])[now[p].keys := now[p].val]
  {
    InsertKeepsOrder(was[..n], p, now[p]);
    InsertRefinesUpdate(was[..n], p, now[p]);
    assert now[..n + 1] == Inserted(was[..n], p, now[p]);
  }

  /** An absent key that does not order below the entry before place i belongs at i or later. */
  lemma AboveAllBefore(s: seq<Entry>, n: nat, key: Keys, i: nat)
    requires WellFormed(s, n) && key[0] != NO_KEY && 0 < i <= |s|
    requires Rank(s[i - 1].keys) <= Rank(key) && key !in KeysOf(s[..n])
    ensures i <= n
    ensures forall k :: 0 <= k < i ==> Rank(s[k].keys) < Rank(key)
  {
    UsedRanksBelowEmpty(Entry(key, 0));
    UsedRanksBelowEmpty(s[i - 1]);
    assert i <= n;
    assert s[..n][i - 1].keys in KeysOf(s[..n]);
    CompareIsRankOrder(s[i - 1].keys, key);
    forall k | 0 <= k < i
      ensures Rank(s[k].keys) < Rank(key)
    {
      if k < i - 1 { OrderAcrossArray(s, n, k, i - 1); }
    }
  }

  // ---- default macros ----

  /** A factory macro: one trigger key and three events. The flash table ends at the first NO_KEY. */
  datatype Default = Default(lkey: Byte, hkeys: ThreeKeys)

  type ThreeKeys = s: seq<Byte> | |s| == 3 witness [0, 0, 0]

  ghost predicate DefaultTable(defs: seq<Default>) {
    && |defs| < 0xFF
    && (forall i :: 0 <= i < |defs| ==> 1 <= defs[i].lkey < NO_KEY)
    && (forall i, j :: 0 <= i < j < |defs| ==> defs[i].lkey != defs[j].lkey)
  }

  const DEFAULT_BLOCK: nat := 5

  function DefaultKeys(lkey: Byte): Keys { [lkey, NO_KEY, NO_KEY, NO_KEY] }

  function DefaultEntry(defs: seq<Default>, i: nat): Entry
    requires i < |defs| < 0xFF
  {
    Entry(DefaultKeys(defs[i].lkey), i * DEFAULT_BLOCK)
  }

  /** The table entry with the smallest key above low: the position, or 0xFF when there is none. */
  method NextDefault(defs: seq<Default>, low: Byte) returns (r: Byte)
    requires DefaultTable(defs)
    ensures r != 0xFF ==> low != NO_KEY && r < |defs| && defs[r].lkey > low
    ensures r != 0xFF ==> forall i :: 0 <= i < |defs| && defs[i].lkey > low ==> defs[r].lkey <= defs[i].lkey
    ensures r == 0xFF ==> forall i :: 0 <= i < |defs| ==> defs[i].lkey <= low
  {
    if low == NO_KEY {
      return 0xFF;
    }
    r := 0xFF;
    var best: Byte := NO_KEY;
    var i := 0;
    while i < |defs|
      invariant 0 <= i <= |defs|
      invariant r == 0xFF ==> best == NO_KEY
      invariant r != 0xFF ==> r < i && best == defs[r].lkey > low
      invariant forall k :: 0 <= k < i && defs[k].lkey > low ==> best <= defs[k].lkey
    {
      var cur := defs[i].lkey;
      if cur > low && cur < best {
        r, best := i, cur;
      }
      i := i + 1;
    }
  }

  lemma DefaultKeysDiffer(defs: seq<Default>, i: nat, j: nat)
    requires DefaultTable(defs) && i < |defs| && j < |defs| && defs[i].lkey == defs[j].lkey
    ensures i == j
  {
  }

  /** The table positions picked so far: in key order, and none left out up to the last key picked. */
  ghost predicate Picked(defs: seq<Default>, order: seq<nat>, last: Byte) {
    && (forall j :: 0 <= j < |order| ==> order[j] < |defs| && defs[order[j]].lkey <= last)
    && (forall i, j :: 0 <= i < j < |order| ==> defs[order[i]].lkey < defs[order[j]].lkey)
    && (forall d :: 0 <= d < |defs| && defs[d].lkey <= last ==> d in order)
  }

  ghost predicate PickedAll(defs: seq<Default>, order: seq<nat>) {
    forall d :: 0 <= d < |defs| ==> d in order
  }

  lemma PickNext(defs: seq<Default>, order: seq<nat>, last: Byte, d: nat)
    requires DefaultTable(defs) && Picked(defs, order, last) && d < |defs| && defs[d].lkey > last
    requires forall i :: 0 <= i < |defs| && defs[i].lkey > last ==> defs[d].lkey <= defs[i].lkey
    ensures Picked(defs, order + [d], defs[d].lkey)
  {
    forall e | 0 <= e < |defs| && defs[e].lkey <= defs[d].lkey
      ensures e in order + [d]
    {
      if defs[e].lkey > last { DefaultKeysDiffer(defs, e, d); }
    }
  }

  lemma PickedRest(defs: seq<Default>, order: seq<nat>, last: Byte)
    requires Picked(defs, order, last) && forall i :: 0 <= i < |defs| ==> defs[i].lkey <= last
    ensures PickedAll(defs, order)
  {
  }

  /** As many distinct positions as the table has leave none out. */
  lemma PickedAsMany(defs: seq<Default>, order: seq<nat>, last: Byte)
    requires Picked(defs, order, last) && |order| >= |defs|
    ensures PickedAll(defs, order)
  {
    DistinctCount(order);
    var picked, all := Elements(order), Range(|defs|);
    assert picked <= all;
    SubsetCount(picked, all);
    forall d | 0 <= d < |defs|
      ensures d in order
    {
      assert d in picked;
    }
  }

  /** Every default key is mapped to the place of its own block, and nothing else is. */
  ghost predicate MapsDefaults(m: map<Keys, Word>, defs: seq<Default>)
    requires |defs| < 0xFF
  {
    && (forall d :: 0 <= d < |defs| ==>
          DefaultKeys(defs[d].lkey) in m && m[DefaultKeys(defs[d].lkey)] == d * DEFAULT_BLOCK)
    && (forall k :: k in m ==> exists d :: 0 <= d < |defs| && k == DefaultKeys(defs[d].lkey))
  }

  lemma DefaultEntriesSorted(defs: seq<Default>, order: seq<nat>, last: Byte, live: seq<Entry>)
    requires DefaultTable(defs) && Picked(defs, order, last) && |live| == |order|
    requires forall j :: 0 <= j < |live| ==> live[j] == DefaultEntry(defs, order[j])
    ensures Sorted(live)
  {
    forall i, j | 0 <= i < j < |live|
      ensures Rank(live[i].keys) < Rank(live[j].keys)
    {
      assert defs[order[i]].lkey < defs[order[j]].lkey;
    }
  }

  lemma PickedNone(defs: seq<Default>)
    requires DefaultTable(defs)
    ensures Picked(defs, [], 0)
  {
  }

  lemma DefaultsFilled(defs: seq<Default>, order: seq<nat>, last: Byte, s: seq<Entry>)
    requires DefaultTable(defs) && Picked(defs, order, last) && PickedAll(defs, order) && |order| <= |s|
    requires forall j :: 0 <= j < |order| ==> s[j] == DefaultEntry(defs, order[j])
    requires forall j :: |order| <= j < |s| ==> s[j] == EMPTY_ENTRY
    ensures WellFormed(s, |order|) && MapsDefaults(AsMap(s[..|order|]), defs)
  {
    PickedEntriesMap(defs, order, last, s[..|order|]);
    forall j | 0 <= j < |order|
      ensures Used(s[j])
    {
      assert s[j] == DefaultEntry(defs, order[j]);
    }
  }

  lemma PickedEntriesMap(defs: seq<Default>, order: seq<nat>, last: Byte, live: seq<Entry>)
    requires DefaultTable(defs) && Picked(defs, order, last) && PickedAll(defs, order) && |live| == |order|
    requires forall j :: 0 <= j < |live| ==> live[j] == DefaultEntry(defs, order[j])
    ensures Sorted(live) && MapsDefaults(AsMap(live), defs)
  {
    DefaultEntriesSorted(defs, order, last, live);
    forall d | 0 <= d < |defs|
      ensures DefaultKeys(defs[d].lkey) in AsMap(live) && AsMap(live)[DefaultKeys(defs[d].lkey)] == d * DEFAULT_BLOCK
    {
      assert d in order;
      var j :| 0 <= j < |order| && order[j] == d;
      AsMapAt(live, j);
    }
    forall k | k in AsMap(live)
      ensures exists d :: 0 <= d < |defs| && k == DefaultKeys(defs[d].lkey)
    {
      var p := PositionOf(live, k);
      assert live[p] == DefaultEntry(defs, order[p]);
    }
  }

  // ---- the index object ----

  class Index {
    const entries: array<Entry>
    ghost var count: nat        // entries in use

    ghost predicate Valid()
      reads this, entries
    {
      0 < entries.Length < 0x100 && WellFormed(entries[..], count)
    }

    ghost function Live(): (s: seq<Entry>)
      requires Valid()
      reads this, entries
    {
      entries[..count]
    }

    ghost function Map(): map<Keys, Word>
      requires Valid()
      reads this, entries
    {
      AsMap(Live())
    }

    /** An erased index. */
    constructor (capacity: nat)
      requires 0 < capacity < 0x100
      ensures Valid() && fresh(entries) && entries.Length == capacity && Live() == []
    {
      entries := new Entry[capacity](_ => EMPTY_ENTRY);
      count := 0;
    }

    /** Replaces the whole index. */
    method Overwrite(s: seq<Entry>, ghost n: nat)
      requires |s| == entries.Length && 0 < entries.Length < 0x100 && WellFormed(s, n) && n <= |s|
      modifies this`count, entries
      ensures Valid() && entries[..] == s && Live() == s[..n]
    {
      forall i | 0 <= i < entries.Length {
        entries[i] := s[i];
      }
      assert entries[..] == s;
      count := n;
    }

    /** Fills the index with the default macros in key order, then with empty entries. */
    method ResetDefaults(defs: seq<Default>)
      requires DefaultTable(defs) && 0 < entries.Length < 0x100 && |defs| <= entries.Length
      modifies this`count, entries
      ensures Valid() && MapsDefaults(Map(), defs)
    {
      hide Picked, PickedAll, WellFormed, AsMap, Sorted, Rank, MapsDefaults;
      var lkey: Byte := 0;
      ghost var order: seq<nat> := [];
      ghost var last: Byte := 0;
      PickedNone(defs);
      var i := 0;
      while i < entries.Length
        invariant 0 <= i <= entries.Length && |order| <= i
        invariant Picked(defs, order, last)
        invariant if lkey == NO_KEY then PickedAll(defs, order) else lkey == last && |order| == i
        invariant forall j :: 0 <= j < |order| ==> order[j] < |defs| && entries[j] == DefaultEntry(defs, order[j])
        invariant forall j :: |order| <= j < i ==> entries[j] == EMPTY_ENTRY
      {
        var d := NextDefault(defs, lkey);
        if d == 0xFF {
          if lkey != NO_KEY {
            PickedRest(defs, order, last);
          }
          lkey := NO_KEY;
          entries[i] := EMPTY_ENTRY;
        } else {
          PickNext(defs, order, last, d);
          lkey := defs[d].lkey;
          entries[i] := Entry(DefaultKeys(lkey), d * DEFAULT_BLOCK);
          order, last := order + [d], lkey;
        }
        i := i + 1;
      }
      if lkey != NO_KEY {
        PickedAsMany(defs, order, last);
      }
      count := |order|;
      DefaultsFilled(defs, order, last, entries[..]);
    }

    method CompareAt(key: Keys, p: nat) returns (d: int)
      requires p < entries.Length
      ensures d == Compare(key, entries[p].keys)
    {
      var j := 0;
      while j < MAX_KEYS
        invariant 0 <= j <= MAX_KEYS
        invariant CompareFrom(key, entries[p].keys, j) == Compare(key, entries[p].keys)
      {
        d := key[j] as int - entries[p].keys[j] as int;
        if d != 0 {
          return;
        }
        j := j + 1;
      }
      d := 0;
    }

    /** Binary search of the whole array, empty entries included, finds what a linear scan finds. */
    method Lookup(key: Keys) returns (r: Option<nat>)
      requires Valid() && key[0] != NO_KEY
      ensures r.Some? ==> r.value < count && entries[r.value].keys == key
      ensures r == LinearFind(entries[..], key)
      ensures r.None? <==> key !in Map()
    {
      hide WellFormed, Sorted, Rank, AsMap, Compare, KeysOf;
      UsedRanksBelowEmpty(Entry(key, 0));
      var lo, hi := 0, entries.Length;
      while lo < hi
        invariant 0 <= lo <= hi <= entries.Length
        invariant forall i :: 0 <= i < lo ==> Rank(entries[i].keys) < Rank(key)
        invariant forall i :: hi <= i < entries.Length ==> Rank(key) < Rank(entries[i].keys)
      {
        var mid := (lo + hi) / 2;
        var d := CompareAt(key, mid);
        CompareIsRankOrder(key, entries[mid].keys);
        if d == 0 {
          LinearFindUnique(entries[..], count, key, mid);
          return Some(mid);
        } else if d < 0 {
          forall i | mid < i < entries.Length
            ensures Rank(key) < Rank(entries[i].keys)
          {
            OrderAcrossArray(entries[..], count, mid, i);
          }
          hi := mid;
        } else {
          UsedRanksBelowEmpty(entries[mid]);
          UsedIsBelowCount(entries[..], count, mid);
          forall i | 0 <= i < mid
            ensures Rank(entries[i].keys) < Rank(key)
          {
            OrderAcrossArray(entries[..], count, i, mid);
          }
          lo := mid + 1;
        }
      }
      r := None;
      assert forall i :: 0 <= i < |entries[..]| ==> Rank(entries[..][i].keys) != Rank(key);
      CompareNeverEqual(entries[..], key);
      CountFits(entries[..], count);
      AbsentIsUnmapped(entries[..], count, key);
    }

    method GetData(p: nat) returns (d: EntryData)
      requires p < entries.Length
      ensures d == Unpack(entries[p].val)
    {
      var val := entries[p].val;
      d := if val >= 0x8000 then Program(val - 0x8000) else Macro(val);
    }

    method SetData(p: nat, d: EntryData)
      requires Valid() && p < count && Fits(d)
      modifies entries
      ensures Valid() && Live() == old(Live())[p := Entry(old(entries[p].keys), Pack(d))]
      ensures Map() == old(Map())[entries[p].keys := Pack(d)]
      ensures forall i :: 0 <= i < entries.Length ==> entries[i].keys == old(entries[i].keys)
    {
      ghost var was := entries[..];
      entries[p] := entries[p].(val := Pack(d));
      ValueChanged(was, entries[..], count, p, Pack(d));
    }

    /** Visits the entries in use, stopping at the first empty one. */
    method Iterate(f: Entry -> Entry)
      requires Valid() && forall e :: f(e).keys == e.keys
      modifies entries
      ensures Valid() && |Live()| == old(|Live()|)
      ensures forall i :: 0 <= i < count ==> entries[i] == f(old(entries[i]))
      ensures forall i :: count <= i < entries.Length ==> entries[i] == old(entries[i])
      ensures Map() == MapOver(old(Map()), f)
    {
      ghost var was := entries[..];
      var i := 0;
      while i < entries.Length
        invariant 0 <= i <= count
        invariant forall k :: 0 <= k < i ==> entries[k] == f(was[k])
        invariant forall k :: i <= k < entries.Length ==> entries[k] == was[k]
      {
        if entries[i].keys[0] == NO_KEY {
          break;
        }
        entries[i] := f(entries[i]);
        i := i + 1;
      }
      ValuesMapped(was, entries[..], count, f);
    }

    /** Moves the entries after p down, stopping once an empty entry has been moved. */
    method CloseGap(p: nat)
      requires Valid() && p < count
      modifies entries
      ensures forall k :: 0 <= k < count - 1 ==> entries[k] == old(entries[if k < p then k else k + 1])
      ensures forall k :: count - 1 <= k < entries.Length ==> !Used(entries[k])
    {
      hide WellFormed, Sorted, AsMap;
      ghost var was := entries[..];
      var i := p;
      CountFits(was, count);
      while i < entries.Length
        invariant p <= i < count <= entries.Length
        invariant forall k :: 0 <= k < p || i <= k < entries.Length ==> entries[k] == was[k]
        invariant forall k :: p <= k < i ==> entries[k] == was[k + 1]
      {
        var tmp := if i == entries.Length - 1 then EMPTY_ENTRY else entries[i + 1];
        entries[i] := tmp;
        if i + 1 < entries.Length { UsedIsBelowCount(was, count, i + 1); }
        if tmp.keys[0] == NO_KEY {
          break;
        }
        i := i + 1;
      }
      forall k | i < k < entries.Length
        ensures !Used(entries[k])
      {
        UsedIsBelowCount(was, count, k);
      }
    }

    method Remove(p: nat)
      requires Valid() && p < count
      modifies this`count, entries
      ensures Valid() && Live() == Removed(old(Live()), p)
      ensures Map() == old(Map()) - {old(entries[p].keys)}
    {
      ghost var was := entries[..];
      CloseGap(p);
      EntryRemoved(was, entries[..], count, p);
      count := count - 1;
    }

    /** Moves larger entries up from the end until the place of an absent key is free. */
    method OpenGap(key: Keys) returns (i: nat)
      requires Valid() && count < entries.Length && key[0] != NO_KEY && key !in KeysOf(Live())
      modifies entries
      ensures i <= count
      ensures forall k :: 0 <= k <= count ==> k == i || entries[k] == old(entries[if k < i then k else k - 1])
      ensures forall k :: count < k < entries.Length ==> entries[k] == old(entries[k])
      ensures forall k :: 0 <= k < i ==> Rank(old(entries[k].keys)) < Rank(key)
      ensures forall k :: i <= k < count ==> Rank(key) < Rank(old(entries[k].keys))
    {
      hide WellFormed, Sorted, Rank, AsMap, Compare, KeysOf;
      ghost var was := entries[..];
      i := entries.Length - 1;
      while i > 0
        invariant 0 <= i < entries.Length
        invariant forall k {:trigger entries[k]} :: 0 <= k < entries.Length ==>
                    entries[k] == if i < k <= count then was[k - 1] else was[k]
        invariant forall k :: i <= k < count ==> Rank(key) < Rank(was[k].keys)
      {
        var d := CompareAt(key, i - 1);
        CompareIsRankOrder(key, was[i - 1].keys);
        if d >= 0 {
          AboveAllBefore(was, count, key, i);
          break;
        }
        UsedIsBelowCount(was, count, i - 1);
        if entries[i - 1].keys[0] != NO_KEY {
          entries[i] := entries[i - 1];
        }
        i := i - 1;
      }
    }

    /** Adds an absent key; fails exactly when the array is full. The new entry's value is left over. */
    method Create(key: Keys) returns (r: Option<nat>)
      requires Valid() && key[0] != NO_KEY && key !in Map()
      modifies this`count, entries
      ensures Valid()
      ensures r.None? <==> old(count) == entries.Length
      ensures r.None? ==> entries[..] == old(entries[..]) && count == old(count) && Map() == old(Map())
      ensures r.Some? ==> r.value < entries.Length && r.value <= old(count) == count - 1 && entries[r.value].keys == key
      ensures r.Some? ==> Live() == Inserted(old(Live()), r.value, entries[r.value])
      ensures r.Some? ==> Map() == old(Map())[key := entries[r.value].val]
    {
      assert count == entries.Length ==> Used(entries[entries.Length - 1]);
      if entries[entries.Length - 1].keys[0] != NO_KEY {
        return None;
      }
      ghost var was := entries[..];
      var i := OpenGap(key);
      entries[i] := entries[i].(keys := key);
      EntryInserted(was, entries[..], count, i);
      count := count + 1;
      r := Some(i);
    }
  }
}
