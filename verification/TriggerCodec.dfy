/**
 * The host's trigger encoding (qtclient/trigger.cc): a list of triggers becomes an index image
 * and a macro image that the firmware can use as they are, and reads back as the same triggers.
 */
module TriggerCodec {
  import opened Bytes
  import opened MacroHeap
  import opened MacroIndex
  import opened Packing
  import opened PagedMemory

  const ENTRY_SIZE: nat := 6            // MAX_KEYS keys and a value word

  /** The bytes that n entries take. */
  function BytesFor(n: nat): nat { 6 * n }

  /** The entries that fit. */
  function Entries(size: nat): nat { size / 6 }

  lemma EntrySizes(n: nat)
    ensures BytesFor(n) == ENTRY_SIZE * n && Entries(BytesFor(n)) == n && ENTRY_SIZE == MAX_KEYS + 2
  {
  }

  datatype Trigger = Trigger(keys: seq<Byte>, content: Content)

  /** Strictly increasing logical keys, as the trigger editor keeps them. */
  ghost predicate KeyList(keys: seq<Byte>) {
    && |keys| <= MAX_KEYS
    && (forall i :: 0 <= i < |keys| ==> keys[i] != NO_KEY)
    && (forall i, j :: 0 <= i < j < |keys| ==> keys[i] < keys[j])
  }

  // ---- editing the keys of a trigger ----

  /** Where a key belongs in an increasing list: the number of smaller keys in front. */
  function LowerBound(keys: seq<Byte>, k: Byte, i: nat := 0): (r: nat)
    requires i <= |keys|
    ensures i <= r <= |keys| && (r < |keys| ==> keys[r] >= k)
    ensures forall j :: i <= j < r ==> keys[j] < k
    decreases |keys| - i
  {
    if i == |keys| || keys[i] >= k then i else LowerBound(keys, k, i + 1)
  }

  function InsertKey(keys: seq<Byte>, k: Byte): (r: seq<Byte>)
    ensures var p := LowerBound(keys, k);
            |r| == |keys| + 1 && forall i :: 0 <= i < |r| ==> r[i] == if i < p then keys[i]
                else if i == p then k else keys[i - 1]
  {
    keys[..LowerBound(keys, k)] + [k] + keys[LowerBound(keys, k)..]
  }

  function RemoveKey(keys: seq<Byte>, k: Byte): (r: seq<Byte>)
    ensures |r| <= |keys|
  {
    if keys == [] then []
    else if keys[|keys| - 1] == k then RemoveKey(keys[..|keys| - 1], k)
    else RemoveKey(keys[..|keys| - 1], k) + [keys[|keys| - 1]]
  }

  lemma InsertKeyHas(keys: seq<Byte>, k: Byte)
    ensures forall x :: x in InsertKey(keys, k) <==> x in keys || x == k
  {
    hide LowerBound;
    var p, r := LowerBound(keys, k), InsertKey(keys, k);
    assert r[p] == k;
    forall x | x in keys
      ensures x in r
    {
      var i :| 0 <= i < |keys| && keys[i] == x;
      assert r[if i < p then i else i + 1] == x;
    }
  }

  lemma InsertKeyKeepsList(keys: seq<Byte>, k: Byte)
    requires KeyList(keys) && |keys| < MAX_KEYS && k !in keys && k != NO_KEY
    ensures KeyList(InsertKey(keys, k))
  {
    hide LowerBound, InsertKey;
    var p, r := LowerBound(keys, k), InsertKey(keys, k);
    InsertKeyAt(keys, k);
    forall i | p <= i < |keys|
      ensures keys[i] > k
    {
      if p < i { assert keys[p] < keys[i]; }
      assert keys[i] in keys;
    }
    forall i, j | 0 <= i < j < |r|
      ensures r[i] < r[j]
    {
      if i < p && j > p { assert keys[i] < k; }
    }
  }

  lemma InsertKeyAt(keys: seq<Byte>, k: Byte)
    ensures var p, r := LowerBound(keys, k), InsertKey(keys, k);
            && p <= |keys| && |r| == |keys| + 1 && (p < |keys| ==> keys[p] >= k)
            && (forall i :: 0 <= i < p ==> r[i] == keys[i] && keys[i] < k) && r[p] == k
            && (forall i :: p < i < |r| ==> r[i] == keys[i - 1])
  {
  }

  lemma {:induction false} RemoveKeyKeepsList(keys: seq<Byte>, k: Byte)
    requires KeyList(keys)
    ensures KeyList(RemoveKey(keys, k)) && forall x :: x in RemoveKey(keys, k) <==> x in keys && x != k
  {
    if keys != [] {
      var front, last := keys[..|keys| - 1], keys[|keys| - 1];
      RemoveKeyKeepsList(front, k);
      assert keys == front + [last];
      var r := RemoveKey(front, k);
      forall i | 0 <= i < |r|
        ensures r[i] < last
      {
        assert r[i] in r && r[i] in front;
        var j :| 0 <= j < |front| && front[j] == r[i];
        assert keys[j] < keys[|keys| - 1];
      }
    }
  }

  /** A trigger being edited. */
  class TriggerEditor {
    var keys: seq<Byte>

    constructor ()
      ensures keys == []
    {
      keys := [];
    }

    /** Adds an absent key if there is room, and removes a present one. The list stays increasing. */
    method ToggleKey(k: Byte)
      requires KeyList(keys) && k != NO_KEY
      modifies this
      ensures KeyList(keys)
      ensures forall x :: x != k ==> (x in keys <==> x in old(keys))
      ensures k in keys <==> k !in old(keys) && |old(keys)| < MAX_KEYS
    {
      if k in keys {
        RemoveKeyKeepsList(keys, k);
        keys := RemoveKey(keys, k);
      } else if |keys| < MAX_KEYS {
        InsertKeyKeepsList(keys, k);
        InsertKeyHas(keys, k);
        keys := InsertKey(keys, k);
      }
    }
  }

  // ---- triggers in index order ----

  /** The key field of an index entry. */
  function Padded(keys: seq<Byte>): (k: Keys)
    requires |keys| <= MAX_KEYS
  {
    keys + Fill(NO_KEY, MAX_KEYS - |keys|)
  }

  lemma PaddedInjective(a: seq<Byte>, b: seq<Byte>)
    requires KeyList(a) && KeyList(b) && Padded(a) == Padded(b)
    ensures a == b
  {
    if |a| < |b| { PaddedShorter(a, b); }
    if |b| < |a| { PaddedShorter(b, a); }
    assert a == Padded(a)[..|a|] && b == Padded(b)[..|b|];
  }

  lemma PaddedShorter(a: seq<Byte>, b: seq<Byte>)
    requires KeyList(a) && KeyList(b) && |a| < |b|
    ensures Padded(a) != Padded(b)
  {
    assert Padded(a)[|a|] == NO_KEY;
    assert Padded(b)[|a|] == b[|a|];
  }

  function RankOf(t: Trigger): nat
    requires |t.keys| <= MAX_KEYS
  {
    Rank(Padded(t.keys))
  }

  predicate KeysFit(ts: seq<Trigger>) { forall i :: 0 <= i < |ts| ==> |ts[i].keys| <= MAX_KEYS }

  ghost predicate Ascending(ts: seq<Trigger>)
    requires KeysFit(ts)
  {
    forall i, j :: 0 <= i < j < |ts| ==> RankOf(ts[i]) < RankOf(ts[j])
  }

  /** Triggers as the editor makes them: proper key lists, no two the same, program numbers of 16 bits. */
  ghost predicate Storable(ts: seq<Trigger>) {
    && (forall i :: 0 <= i < |ts| ==> KeyList(ts[i].keys) && (ts[i].content.ProgramId? ==> ts[i].content.id < 0x1_0000))
    && (forall i, j :: 0 <= i < j < |ts| ==> ts[i].keys != ts[j].keys || ts[i].keys == [])
  }

  predicate ContentFits(c: Content) {
    match c case ProgramId(id) => id < 0x1_0000 case Events(events) => |events| < 0x1_0000
  }

  /** Places a trigger among sorted ones by byte order of the padded keys. */
  function Place(ts: seq<Trigger>, t: Trigger): (r: seq<Trigger>)
    requires KeysFit(ts) && |t.keys| <= MAX_KEYS
    ensures KeysFit(r) && |r| == |ts| + 1
  {
    if ts == [] || Compare(Padded(ts[|ts| - 1].keys), Padded(t.keys)) < 0 then ts + [t]
    else Place(ts[..|ts| - 1], t) + [ts[|ts| - 1]]
  }

  /** The triggers with keys among the first n, sorted. */
  function InOrder(ts: seq<Trigger>, n: nat): (r: seq<Trigger>)
    requires KeysFit(ts) && n <= |ts|
    ensures KeysFit(r) && |r| <= n
  {
    if n == 0 then [] else if ts[n - 1].keys == [] then InOrder(ts, n - 1) else Place(InOrder(ts, n - 1), ts[n - 1])
  }

  lemma {:induction false} PlaceKeeps(ts: seq<Trigger>, t: Trigger)
    requires KeysFit(ts) && |t.keys| <= MAX_KEYS && Ascending(ts)
    requires forall i :: 0 <= i < |ts| ==> RankOf(ts[i]) != RankOf(t)
    ensures Ascending(Place(ts, t)) && forall x :: x in Place(ts, t) <==> x in ts || x == t
  {
    if ts != [] {
      var front, last := ts[..|ts| - 1], ts[|ts| - 1];
      CompareIsRankOrder(Padded(last.keys), Padded(t.keys));
      assert ts == front + [last];
      if RankOf(last) > RankOf(t) {
        PlaceKeeps(front, t);
        PlacedBelow(front, t, last);
      }
    }
  }

  lemma PlacedBelow(front: seq<Trigger>, t: Trigger, last: Trigger)
    requires KeysFit(front) && |t.keys| <= MAX_KEYS && |last.keys| <= MAX_KEYS && Ascending(Place(front, t))
    requires forall x :: x in Place(front, t) <==> x in front || x == t
    requires RankOf(t) < RankOf(last) && forall i :: 0 <= i < |front| ==> RankOf(front[i]) < RankOf(last)
    ensures Ascending(Place(front, t) + [last])
  {
    var r := Place(front, t);
    forall i | 0 <= i < |r|
      ensures RankOf(r[i]) < RankOf(last)
    {
      assert r[i] in r;
    }
  }

  /** Another trigger with keys has another rank. */
  lemma NewRank(ts: seq<Trigger>, n: nat, x: Trigger)
    requires Storable(ts) && n < |ts| && x in ts[..n] && ts[n].keys != []
    ensures KeyList(x.keys) && RankOf(x) != RankOf(ts[n])
  {
    hide Rank, Padded, Compare;
    var j :| 0 <= j < n && ts[j] == x;
    CompareIsRankOrder(Padded(x.keys), Padded(ts[n].keys));
    if RankOf(x) == RankOf(ts[n]) { PaddedInjective(x.keys, ts[n].keys); }
  }

  /** The sorted list holds exactly the triggers that have keys. */
  lemma {:induction false} InOrderKeeps(ts: seq<Trigger>, n: nat)
    requires Storable(ts) && KeysFit(ts) && n <= |ts|
    ensures Ascending(InOrder(ts, n))
    ensures forall x :: x in InOrder(ts, n) <==> x in ts[..n] && x.keys != []
  {
    hide Storable, Place, RankOf, Ascending, KeyList;
    if n == 0 {
      NothingAscending();
    } else {
      InOrderKeeps(ts, n - 1);
      var t, r := ts[n - 1], InOrder(ts, n - 1);
      assert ts[..n] == ts[..n - 1] + [t];
      if t.keys != [] {
        forall i | 0 <= i < |r|
          ensures RankOf(r[i]) != RankOf(t)
        {
          assert r[i] in r;
          NewRank(ts, n - 1, r[i]);
        }
        StorableKeys(ts, n - 1);
        PlaceKeeps(r, t);
      }
    }
  }

  lemma NothingAscending()
    ensures Ascending([])
  {
  }

  lemma StorableKeys(ts: seq<Trigger>, i: nat)
    requires Storable(ts) && i < |ts|
    ensures |ts[i].keys| <= MAX_KEYS
  {
  }

  // ---- the images of a sorted list ----

  /** The macros of the first n triggers, in order. */
  function BlocksOf(es: seq<Trigger>, n: nat): seq<MacroBlock>
    requires KeysFit(es) && n <= |es|
  {
    if n == 0 then []
    else if es[n - 1].content.Events? && |es[n - 1].content.events| < 0x1_0000
    then BlocksOf(es, n - 1) + [Block(Padded(es[n - 1].keys), MacroBytes(es[n - 1].content.events))]
    else BlocksOf(es, n - 1)
  }

  /** A 16-bit number with its top bit set. */
  function Flagged(id: nat): nat { if id < 0x8000 then id + 0x8000 else id }

  /** The value word of trigger i: its macro's offset, or its program with the top bit set. */
  function ValueOf(es: seq<Trigger>, i: nat): nat
    requires KeysFit(es) && i < |es|
  {
    if es[i].content.Events? then Total(BlocksOf(es, i)) else Flagged(es[i].content.id)
  }

  function MapOf(es: seq<Trigger>, n: nat): map<Keys, nat>
    requires KeysFit(es) && n <= |es|
  {
    if n == 0 then map[] else MapOf(es, n - 1)[Padded(es[n - 1].keys) := ValueOf(es, n - 1)]
  }

  function ContentsOf(es: seq<Trigger>, n: nat): map<Keys, Content>
    requires KeysFit(es) && n <= |es|
  {
    if n == 0 then map[] else ContentsOf(es, n - 1)[Padded(es[n - 1].keys) := es[n - 1].content]
  }

  // ---- storage sizes ----

  function Required(t: Trigger): nat { if t.content.Events? then HEADER + |t.content.events| else 0 }

  /** The storage the macros of the first n triggers take; triggers without keys are not stored. */
  function RequiredBy(ts: seq<Trigger>, n: nat): nat
    requires n <= |ts|
  {
    if n == 0 then 0 else RequiredBy(ts, n - 1) + if ts[n - 1].keys == [] then 0 else Required(ts[n - 1])
  }

  lemma {:induction false} RequiredFront(ts: seq<Trigger>, n: nat, m: nat)
    requires n <= m <= |ts|
    ensures RequiredBy(ts[..m], n) == RequiredBy(ts, n)
  {
    if n > 0 { RequiredFront(ts, n - 1, m); }
  }

  lemma RequiredAppend(ts: seq<Trigger>, t: Trigger)
    requires t.keys != []
    ensures RequiredBy(ts + [t], |ts| + 1) == RequiredBy(ts, |ts|) + Required(t)
  {
    RequiredFront(ts + [t], |ts|, |ts|);
    assert (ts + [t])[..|ts|] == ts;
  }

  lemma {:induction false} RequiredPlace(ts: seq<Trigger>, t: Trigger)
    requires KeysFit(ts) && |t.keys| <= MAX_KEYS && t.keys != [] && forall i :: 0 <= i < |ts| ==> ts[i].keys != []
    ensures RequiredBy(Place(ts, t), |ts| + 1) == RequiredBy(ts, |ts|) + Required(t)
    ensures forall i :: 0 <= i <= |ts| ==> Place(ts, t)[i].keys != []
  {
    hide Required, Compare;
    if ts == [] {
      RequiredAppend(ts, t);
    } else {
      var front, last := ts[..|ts| - 1], ts[|ts| - 1];
      RequiredPlace(front, t);
      RequiredAppend(ts, t);
      RequiredAppend(Place(front, t), last);
      RequiredFront(ts, |ts| - 1, |ts| - 1);
    }
  }

  /** Sorting does not change the storage needed. */
  lemma {:induction false} RequiredInOrder(ts: seq<Trigger>, n: nat)
    requires KeysFit(ts) && n <= |ts|
    ensures RequiredBy(InOrder(ts, n), |InOrder(ts, n)|) == RequiredBy(ts, n)
    ensures forall i :: 0 <= i < |InOrder(ts, n)| ==> InOrder(ts, n)[i].keys != []
  {
    hide Required, Place;
    if n > 0 {
      RequiredInOrder(ts, n - 1);
      if ts[n - 1].keys != [] { RequiredPlace(InOrder(ts, n - 1), ts[n - 1]); }
    }
  }

  lemma {:induction false} BlocksTotal(es: seq<Trigger>, n: nat)
    requires KeysFit(es) && n <= |es|
    requires forall i :: 0 <= i < |es| ==> es[i].keys != [] && ContentFits(es[i].content)
    ensures Total(BlocksOf(es, n)) == RequiredBy(es, n)
  {
    if n > 0 {
      BlocksTotal(es, n - 1);
      if es[n - 1].content.Events? {
        TotalAppend(BlocksOf(es, n - 1), Block(Padded(es[n - 1].keys), MacroBytes(es[n - 1].content.events)));
      }
    }
  }

  lemma {:induction false} RequiredGrows(ts: seq<Trigger>, n: nat, m: nat)
    requires n <= m <= |ts|
    ensures RequiredBy(ts, n) <= RequiredBy(ts, m)
    decreases m
  {
    if n < m { RequiredGrows(ts, n, m - 1); }
  }

  // ---- what the images mean to the firmware ----

  lemma {:induction false} MapKeys(es: seq<Trigger>, n: nat, k: Keys)
    requires KeysFit(es) && n <= |es|
    ensures k in MapOf(es, n) <==> exists i :: 0 <= i < n && Padded(es[i].keys) == k
    ensures k in ContentsOf(es, n) <==> k in MapOf(es, n)
  {
    if n > 0 { MapKeys(es, n - 1, k); }
  }

  lemma NewKey(es: seq<Trigger>, n: nat)
    requires KeysFit(es) && Ascending(es) && n < |es|
    ensures Padded(es[n].keys) !in MapOf(es, n)
  {
    hide Rank, Padded;
    MapKeys(es, n, Padded(es[n].keys));
    forall i | 0 <= i < n
      ensures Padded(es[i].keys) != Padded(es[n].keys)
    {
      assert RankOf(es[i]) < RankOf(es[n]);
    }
  }

  lemma ProgramBound(m: map<Keys, Word>, bs: seq<MacroBlock>, heap: seq<Byte>, k: Keys, id: nat)
    requires Agree(m, bs, None) && k !in m && id < 0x8000
    ensures Agree(m[k := id + 0x8000], bs, None)
    ensures Bindings(m[k := id + 0x8000], heap, None) == Bindings(m, heap, None)[k := ProgramId(id)]
  {
    hide Start;
    var next := m[k := id + 0x8000];
    forall i | 0 <= i < |bs|
      ensures Placed(next, bs, i)
    {
      assert Placed(m, bs, i);
    }
  }

  lemma PackedFront(heap: seq<Byte>, bs: seq<MacroBlock>, b: MacroBlock)
    requires Packed(heap, bs + [b])
    ensures Packed(heap, bs)
  {
    TotalAppend(bs, b);
    forall i | 0 <= i < |bs|
      ensures InPlace(heap, bs, i)
    {
      StartInAppend(bs, b, i);
      assert InPlace(heap, bs + [b], i);
    }
  }

  ghost predicate Sendable(es: seq<Trigger>) {
    && KeysFit(es) && Ascending(es) && forall i :: 0 <= i < |es| ==> es[i].keys != [] && ContentFits(es[i].content)
  }

  /** One more trigger in the images. */
  lemma TriggerBound(es: seq<Trigger>, n: nat, heap: seq<Byte>, m: map<Keys, Word>)
    requires Sendable(es) && n < |es| && Packed(heap, BlocksOf(es, n + 1)) && Total(BlocksOf(es, n + 1)) < 0x8000
    requires es[n].content.ProgramId? ==> es[n].content.id < 0x8000
    requires m == MapOf(es, n) && Agree(m, BlocksOf(es, n), None) && Bindings(m, heap, None) == ContentsOf(es, n)
    requires Packed(heap, BlocksOf(es, n))
    ensures ValueOf(es, n) < 0x1_0000
    ensures Agree(m[Padded(es[n].keys) := ValueOf(es, n)], BlocksOf(es, n + 1), None)
    ensures Bindings(m[Padded(es[n].keys) := ValueOf(es, n)], heap, None) == ContentsOf(es, n + 1)
  {
    hide Agree, Bindings, Start, Packed, Padded, Ascending, MacroBytes;
    var bs, k := BlocksOf(es, n), Padded(es[n].keys);
    NewKey(es, n);
    if es[n].content.Events? {
      var events := es[n].content.events;
      TotalAppend(bs, Block(k, MacroBytes(events)));
      MacroBytesRead(events);
      MacroLength(events);
      PendingBegins(m, bs, heap, k);
      CommitBinds(m[k := Total(bs)], bs, heap, k, events, heap);
      CommitAgrees(m[k := Total(bs)], bs, k, MacroBytes(events));
    } else {
      ProgramBound(m, bs, heap, k, es[n].content.id);
    }
  }

  lemma MacroLength(events: seq<Byte>)
    requires |events| < 0x1_0000
    ensures |MacroBytes(events)| == HEADER + |events|
  {
  }

  /** Index values fit a word, and index and heap bind each key combination to its trigger's content. */
  lemma {:induction false} AllBound(es: seq<Trigger>, n: nat, heap: seq<Byte>) returns (m: map<Keys, Word>)
    requires Sendable(es) && n <= |es| && Packed(heap, BlocksOf(es, n)) && Total(BlocksOf(es, n)) < 0x8000
    requires forall i :: 0 <= i < n && es[i].content.ProgramId? ==> es[i].content.id < 0x8000
    ensures m == MapOf(es, n) && Agree(m, BlocksOf(es, n), None) && Bindings(m, heap, None) == ContentsOf(es, n)
  {
    hide Agree, Bindings, Start, Packed, Padded, Ascending, MacroBytes, Sendable;
    if n == 0 {
      m := map[];
      NothingBound(heap);
    } else {
      FrontPacked(es, n, heap);
      m := AllBound(es, n - 1, heap);
      TriggerBound(es, n - 1, heap, m);
      m := m[Padded(es[n - 1].keys) := ValueOf(es, n - 1)];
    }
  }

  lemma NothingBound(heap: seq<Byte>)
    ensures Agree(map[], [], None) && Bindings(map[], heap, None) == map[]
  {
  }

  lemma FrontPacked(es: seq<Trigger>, n: nat, heap: seq<Byte>)
    requires Sendable(es) && 0 < n <= |es| && Packed(heap, BlocksOf(es, n))
    ensures KeysFit(es) && Packed(heap, BlocksOf(es, n - 1)) && Total(BlocksOf(es, n - 1)) <= Total(BlocksOf(es, n))
  {
    hide Start, Packed, Padded, Ascending, MacroBytes;
    var t := es[n - 1];
    if t.content.Events? {
      PackedFront(heap, BlocksOf(es, n - 1), Block(Padded(t.keys), MacroBytes(t.content.events)));
      TotalAppend(BlocksOf(es, n - 1), Block(Padded(t.keys), MacroBytes(t.content.events)));
    }
  }

  // ---- index images ----

  function EntryAt(index: seq<Byte>, i: nat): Entry
    requires BytesFor(i + 1) <= |index|
  {
    var at := BytesFor(i);
    Entry(index[at..at + MAX_KEYS], MakeWord(index[at + MAX_KEYS], index[at + MAX_KEYS + 1]))
  }

  /** The entries an index image holds. */
  function EntriesOf(index: seq<Byte>): (s: seq<Entry>)
    ensures |s| == Entries(|index|)
  {
    seq(Entries(|index|), i requires 0 <= i < Entries(|index|) => EntryAt(index, i))
  }

  function EntryBytes(e: Entry): (b: seq<Byte>)
    ensures |b| == ENTRY_SIZE
  {
    e.keys + WordBytes(e.val)
  }

  lemma EntryWritten(index: seq<Byte>, i: nat, at: nat, e: Entry)
    requires i < Entries(|index|) && at == BytesFor(i)
    ensures at + ENTRY_SIZE <= |index|
    ensures EntriesOf(Splice(index, at, EntryBytes(e))) == EntriesOf(index)[i := e]
  {
    var now := Splice(index, at, EntryBytes(e));
    forall k | 0 <= k < Entries(|index|)
      ensures EntryAt(now, k) == if k == i then e else EntryAt(index, k)
    {
      EntryAfterWrite(index, i, at, e, k);
    }
    assert forall k :: 0 <= k < |EntriesOf(now)| ==> EntriesOf(now)[k] == EntriesOf(index)[i := e][k];
  }

  lemma EntryAfterWrite(index: seq<Byte>, i: nat, at: nat, e: Entry, k: nat)
    requires BytesFor(i + 1) <= |index| && at == BytesFor(i) && BytesFor(k + 1) <= |index|
    ensures EntryAt(Splice(index, at, EntryBytes(e)), k) == if k == i then e else EntryAt(index, k)
  {
    hide Lo, Hi, MakeWord;
    var now, b := Splice(index, at, EntryBytes(e)), EntryBytes(e);
    if k == i {
      var w := WordBytes(e.val);
      assert now[at..at + MAX_KEYS] == e.keys;
      assert now[at + MAX_KEYS] == b[MAX_KEYS] == w[0] && now[at + MAX_KEYS + 1] == b[MAX_KEYS + 1] == w[1];
    } else {
      var other := BytesFor(k);
      SpliceKeeps(index, at, b, other, MAX_KEYS);
      assert now[other + MAX_KEYS] == index[other + MAX_KEYS];
      assert now[other + MAX_KEYS + 1] == index[other + MAX_KEYS + 1];
    }
  }

  lemma BlankEntries(size: nat)
    ensures forall i :: 0 <= i < Entries(size) ==> !Used(EntriesOf(Fill(NO_KEY, size))[i])
  {
  }

  function EntryOf(es: seq<Trigger>, i: nat): Entry
    requires KeysFit(es) && i < |es| && ValueOf(es, i) < 0x1_0000
  {
    Entry(Padded(es[i].keys), ValueOf(es, i))
  }

  /** The first n triggers are in the index image and no others. */
  ghost predicate IndexHolds(es: seq<Trigger>, n: nat, s: seq<Entry>)
    requires KeysFit(es) && n <= |es|
  {
    && n <= |s|
    && (forall i :: 0 <= i < n ==> ValueOf(es, i) < 0x1_0000 && s[i] == EntryOf(es, i))
    && (forall i :: n <= i < |s| ==> !Used(s[i]))
  }

  lemma IndexGrows(es: seq<Trigger>, n: nat, s: seq<Entry>)
    requires KeysFit(es) && n < |es| && n < |s| && IndexHolds(es, n, s) && ValueOf(es, n) < 0x1_0000
    ensures IndexHolds(es, n + 1, s[n := EntryOf(es, n)])
  {
  }

  lemma IndexWellFormed(es: seq<Trigger>, s: seq<Entry>)
    requires Sendable(es) && IndexHolds(es, |es|, s)
    requires forall i :: 0 <= i < |es| ==> es[i].keys[0] != NO_KEY
    ensures WellFormed(s, |es|)
  {
    hide ValueOf, Rank;
    forall i | 0 <= i < |es|
      ensures Used(s[i])
    {
      assert s[i] == EntryOf(es, i);
    }
    forall i, j | 0 <= i < j < |es|
      ensures Rank(s[..|es|][i].keys) < Rank(s[..|es|][j].keys)
    {
      assert s[i] == EntryOf(es, i) && s[j] == EntryOf(es, j);
      assert RankOf(es[i]) < RankOf(es[j]);
    }
  }

  lemma {:induction false} MapValue(es: seq<Trigger>, n: nat, i: nat)
    requires KeysFit(es) && Ascending(es) && i < n <= |es|
    ensures Padded(es[i].keys) in MapOf(es, n) && MapOf(es, n)[Padded(es[i].keys)] == ValueOf(es, i)
    decreases n
  {
    hide Rank, Padded, ValueOf;
    if i < n - 1 {
      MapValue(es, n - 1, i);
      NewKey(es, n - 1);
    }
  }

  lemma IndexMeaning(es: seq<Trigger>, s: seq<Entry>, m: map<Keys, Word>)
    requires Sendable(es) && IndexHolds(es, |es|, s) && m == MapOf(es, |es|) && WellFormed(s, |es|)
    ensures |es| <= |s| && AsMap(s[..|es|]) == m
  {
    hide Rank, Padded, ValueOf, MapOf, Used;
    var live := s[..|es|];
    forall i | 0 <= i < |live|
      ensures live[i].keys in m && m[live[i].keys] == live[i].val
    {
      assert s[i] == EntryOf(es, i);
      MapValue(es, |es|, i);
    }
    forall k | k in m
      ensures k in KeysOf(live)
    {
      MapKeys(es, |es|, k);
      var i :| 0 <= i < |es| && Padded(es[i].keys) == k;
      assert s[i] == EntryOf(es, i);
      assert live[i].keys == k;
    }
    AsMapCharacterised(live, m);
  }

  // ---- encoding ----

  datatype Encoding =
    | Image(index: seq<Byte>, storage: seq<Byte>)
    | IndexTooSmall(required: nat, available: nat)
    | StorageTooSmall(required: nat, available: nat)

  /** The heap part of a macro image: what follows the end offset. An image without macros may be empty. */
  function HeapIn(storage: seq<Byte>): seq<Byte> { if |storage| < 2 then [] else storage[2..] }

  predicate BlankFrom(index: seq<Byte>, at: nat) { forall x :: at <= x < |index| ==> index[x] == NO_KEY }

  /** The images of a sorted list of triggers. */
  ghost predicate ImageOf(es: seq<Trigger>, index: seq<Byte>, storage: seq<Byte>)
    requires KeysFit(es)
  {
    && IndexHolds(es, |es|, EntriesOf(index)) && Packed(HeapIn(storage), BlocksOf(es, |es|))
    && |HeapIn(storage)| == Total(BlocksOf(es, |es|)) < 0x1_0000 && BlankFrom(index, BytesFor(|es|))
    && if storage == [] then BlocksOf(es, |es|) == []
       else |storage| >= 2 && ReadWord(storage, 0) == Total(BlocksOf(es, |es|))
  }

  /** Writes a macro's length and events at the cursor. */
  method EncodeMacro(events: seq<Byte>, storage: seq<Byte>, cursor: nat) returns (storage': seq<Byte>, cursor': nat)
    requires |events| < 0x1_0000 && cursor + HEADER + |events| <= |storage|
    ensures storage' == Splice(storage, cursor, MacroBytes(events)) && cursor' == cursor + HEADER + |events|
  {
    hide Splice, Lo, Hi;
    var length := |events|;
    SpliceJoin(storage, cursor, WordBytes(length), events);
    storage' := Splice(storage, cursor, WordBytes(length));
    SameLength(storage, cursor, WordBytes(length));
    cursor' := cursor + HEADER;
    storage' := Splice(storage', cursor', events);
    cursor' := cursor' + length;
  }

  lemma SameLength(image: seq<Byte>, at: nat, data: seq<Byte>)
    requires at + |data| <= |image|
    ensures |Splice(image, at, data)| == |image|
  {
  }

  /** Writes one entry, and the macro it points to, at the cursors. */
  method EncodeTrigger(t: Trigger, index: seq<Byte>, storage: seq<Byte>, indexCursor: nat, storageCursor: nat,
                       storageBase: nat)
    returns (index': seq<Byte>, storage': seq<Byte>, indexCursor': nat, storageCursor': nat)
    requires |t.keys| <= MAX_KEYS && ContentFits(t.content) && indexCursor + ENTRY_SIZE <= |index|
    requires storageBase <= storageCursor < storageBase + 0x1_0000 && storageCursor + Required(t) <= |storage|
    ensures indexCursor' == indexCursor + ENTRY_SIZE
    ensures var value := if t.content.Events? then storageCursor - storageBase else Flagged(t.content.id);
            index' == Splice(index, indexCursor, if Padded(t.keys)[0] == NO_KEY then Padded(t.keys)
                                                 else EntryBytes(Entry(Padded(t.keys), value)))
    ensures if t.content.Events? && Padded(t.keys)[0] != NO_KEY
            then && storage' == Splice(storage, storageCursor, MacroBytes(t.content.events))
                 && storageCursor' == storageCursor + Required(t)
            else storage' == storage && storageCursor' == storageCursor
  {
    hide Splice, Padded, MacroBytes, Lo, Hi;
    var keys := Padded(t.keys);
    index', storage', storageCursor' := Splice(index, indexCursor, keys), storage, storageCursor;
    SameLength(index, indexCursor, keys);
    indexCursor' := indexCursor + MAX_KEYS;
    if keys[0] == NO_KEY {
      indexCursor' := indexCursor' + 2;
    } else {
      var value := if t.content.Events? then storageCursor - storageBase else Flagged(t.content.id);
      SpliceJoin(index, indexCursor, keys, WordBytes(value));
      index' := Splice(index', indexCursor', WordBytes(value));
      indexCursor' := indexCursor' + 2;
      if t.content.Events? {
        storage', storageCursor' := EncodeMacro(t.content.events, storage, storageCursor);
      }
    }
  }

  /** After n triggers, with the storage image starting at base. */
  ghost predicate Encoded(es: seq<Trigger>, n: nat, index: seq<Byte>, heap: seq<Byte>)
    requires KeysFit(es) && n <= |es|
  {
    IndexHolds(es, n, EntriesOf(index)) && BlankFrom(index, BytesFor(n)) && Packed(heap, BlocksOf(es, n))
  }

  lemma IndexMore(es: seq<Trigger>, n: nat, index: seq<Byte>, index': seq<Byte>)
    requires KeysFit(es) && n < |es| && n < Entries(|index|) && BytesFor(n) + ENTRY_SIZE <= |index|
    requires IndexHolds(es, n, EntriesOf(index)) && BlankFrom(index, BytesFor(n)) && ValueOf(es, n) < 0x1_0000
    requires index' == Splice(index, BytesFor(n), EntryBytes(EntryOf(es, n)))
    ensures IndexHolds(es, n + 1, EntriesOf(index')) && BlankFrom(index', BytesFor(n + 1))
  {
    hide Padded, EntryBytes, EntriesOf, IndexHolds, BlankFrom, Splice, ValueOf;
    BlankBehind(index, BytesFor(n), EntryBytes(EntryOf(es, n)));
    EntryWritten(index, n, BytesFor(n), EntryOf(es, n));
    IndexGrows(es, n, EntriesOf(index));
  }

  lemma HeapMore(es: seq<Trigger>, n: nat, heap: seq<Byte>, heap': seq<Byte>)
    requires KeysFit(es) && n < |es| && ContentFits(es[n].content) && Packed(heap, BlocksOf(es, n))
    requires Total(BlocksOf(es, n)) + Required(es[n]) <= |heap|
    requires heap' == if es[n].content.Events?
                      then Splice(heap, Total(BlocksOf(es, n)), MacroBytes(es[n].content.events)) else heap
    ensures Packed(heap', BlocksOf(es, n + 1))
  {
    hide Packed, Padded, MacroBytes, Splice, Total;
    if es[n].content.Events? {
      MacroLength(es[n].content.events);
      BlockWritten(heap, BlocksOf(es, n), Block(Padded(es[n].keys), MacroBytes(es[n].content.events)), heap');
    }
  }

  lemma BlankBehind(index: seq<Byte>, at: nat, data: seq<Byte>)
    requires at + |data| <= |index| && BlankFrom(index, at)
    ensures BlankFrom(Splice(index, at, data), at + |data|)
  {
  }

  lemma SendableFits(es: seq<Trigger>)
    requires Sendable(es)
    ensures KeysFit(es) && Ascending(es)
  {
  }

  lemma HeapSplice(storage: seq<Byte>, base: nat, cursor: nat, data: seq<Byte>)
    requires base <= cursor && cursor + |data| <= |storage|
    ensures Splice(storage, cursor, data)[base..] == Splice(storage[base..], cursor - base, data)
    ensures Splice(storage, cursor, data)[..base] == storage[..base]
  {
  }

  /** Every stored trigger's macro is part of the storage needed. */
  lemma {:induction false} RequiredContains(ts: seq<Trigger>, n: nat, i: nat)
    requires i < n <= |ts| && ts[i].keys != []
    ensures Required(ts[i]) <= RequiredBy(ts, n)
    decreases n
  {
    if i < n - 1 { RequiredContains(ts, n - 1, i); }
  }

  lemma SortedSendable(ts: seq<Trigger>)
    requires Storable(ts) && RequiredBy(ts, |ts|) < 0x1_0000
    ensures KeysFit(ts) && Sendable(InOrder(ts, |ts|))
    ensures forall x :: x in InOrder(ts, |ts|) <==> x in ts && x.keys != []
    ensures forall i :: 0 <= i < |InOrder(ts, |ts|)| ==> InOrder(ts, |ts|)[i].keys[0] != NO_KEY
  {
    hide InOrder, Ascending, Padded;
    InOrderKeeps(ts, |ts|);
    assert ts[..|ts|] == ts;
    var es := InOrder(ts, |ts|);
    forall i | 0 <= i < |es|
      ensures es[i].keys != [] && ContentFits(es[i].content) && es[i].keys[0] != NO_KEY
    {
      assert es[i] in es;
      var j :| 0 <= j < |ts| && ts[j] == es[i];
      RequiredContains(ts, |ts|, j);
    }
  }

  /** Writes all triggers; the images have exactly the room they need. */
  method EncodeAll(es: seq<Trigger>, indexSize: nat, storage0: seq<Byte>, base: nat) returns (index: seq<Byte>,
                   storage: seq<Byte>)
    requires Sendable(es) && (forall i :: 0 <= i < |es| ==> es[i].keys[0] != NO_KEY) && BytesFor(|es|) <= indexSize
    requires |storage0| == base + RequiredBy(es, |es|) && RequiredBy(es, |es|) < 0x1_0000
    ensures |index| == indexSize && |storage| == |storage0| && storage[..base] == storage0[..base]
    ensures Encoded(es, |es|, index, storage[base..])
  {
    hide Start, Packed, Padded, Ascending, MacroBytes, EntryBytes, EntriesOf, Encoded, Splice, Required, BlocksOf,
         Total, ValueOf;
    index, storage := Fill(NO_KEY, indexSize), storage0;
    var indexCursor, storageCursor := 0, base;
    NothingEncoded(es, indexSize, storage[base..]);
    var n := 0;
    while n < |es|
      invariant 0 <= n <= |es| && indexCursor == BytesFor(n) && storageCursor == base + RequiredBy(es, n)
      invariant |index| == indexSize && |storage| == |storage0| && storage[..base] == storage0[..base]
      invariant Encoded(es, n, index, storage[base..])
    {
      RoomFor(es, n, indexSize);
      PaddedStart(es[n].keys);
      RequiredIs(es[n]);
      ValueIs(es, n);
      ghost var before, was := index, storage;
      index, storage, indexCursor, storageCursor :=
        EncodeTrigger(es[n], index, storage, indexCursor, storageCursor, base);
      EncodedStep(es, n, before, was, index, storage, base);
      n := n + 1;
    }
  }

  lemma NothingEncoded(es: seq<Trigger>, indexSize: nat, heap: seq<Byte>)
    requires KeysFit(es)
    ensures Encoded(es, 0, Fill(NO_KEY, indexSize), heap)
  {
    BlankEntries(indexSize);
  }

  lemma RoomFor(es: seq<Trigger>, n: nat, indexSize: nat)
    requires Sendable(es) && n < |es| && BytesFor(|es|) <= indexSize && RequiredBy(es, |es|) < 0x1_0000
    ensures BytesFor(n) + ENTRY_SIZE <= indexSize && n < Entries(indexSize)
    ensures es[n].keys != [] && |es[n].keys| <= MAX_KEYS && ContentFits(es[n].content)
    ensures RequiredBy(es, n + 1) == RequiredBy(es, n) + Required(es[n]) <= RequiredBy(es, |es|)
    ensures Total(BlocksOf(es, n)) == RequiredBy(es, n) && ValueOf(es, n) < 0x1_0000
  {
    hide Sendable, Required, RequiredBy, BlocksOf, Total, BytesFor, Entries, ValueOf;
    EntryRoom(n, |es|, indexSize);
    SendableAt(es, n);
    RequiredNext(es, n);
    RequiredGrows(es, n + 1, |es|);
    SendableTotal(es, n);
    ValueIs(es, n);
  }

  lemma RequiredNext(es: seq<Trigger>, n: nat)
    requires n < |es| && es[n].keys != []
    ensures RequiredBy(es, n + 1) == RequiredBy(es, n) + Required(es[n])
  {
  }

  lemma SendableTotal(es: seq<Trigger>, n: nat)
    requires Sendable(es) && n <= |es|
    ensures KeysFit(es) && Total(BlocksOf(es, n)) == RequiredBy(es, n)
  {
    hide BlocksOf, Total, RequiredBy, Ascending;
    BlocksTotal(es, n);
  }

  lemma EntryRoom(n: nat, m: nat, indexSize: nat)
    requires n < m && BytesFor(m) <= indexSize
    ensures BytesFor(n) + ENTRY_SIZE <= indexSize && n < Entries(indexSize)
  {
  }

  lemma RequiredIs(t: Trigger)
    requires ContentFits(t.content)
    ensures Required(t) == if t.content.Events? then |MacroBytes(t.content.events)| else 0
  {
  }

  /** A stored key combination starts with a key. */
  lemma PaddedStart(keys: seq<Byte>)
    requires 0 < |keys| <= MAX_KEYS
    ensures Padded(keys)[0] == keys[0]
  {
  }

  lemma StorageStep(t: Trigger, storage: seq<Byte>, storage': seq<Byte>, base: nat, cursor: nat)
    requires base <= cursor && cursor + Required(t) <= |storage|
    requires t.content.Events? ==> |t.content.events| < 0x1_0000 && |MacroBytes(t.content.events)| == Required(t)
    requires storage' == if t.content.Events? then Splice(storage, cursor, MacroBytes(t.content.events)) else storage
    ensures |storage'| == |storage| && storage'[..base] == storage[..base]
    ensures storage'[base..] == if t.content.Events?
                                then Splice(storage[base..], cursor - base, MacroBytes(t.content.events))
                                else storage[base..]
  {
    hide MacroBytes, Required;
    if t.content.Events? { HeapSplice(storage, base, cursor, MacroBytes(t.content.events)); }
  }

  lemma EncodedStep(es: seq<Trigger>, n: nat, index: seq<Byte>, storage: seq<Byte>, index': seq<Byte>,
                    storage': seq<Byte>, base: nat)
    requires KeysFit(es) && n < |es| && n < Entries(|index|) && BytesFor(n) + ENTRY_SIZE <= |index|
    requires ContentFits(es[n].content) && base + Total(BlocksOf(es, n)) + Required(es[n]) <= |storage|
    requires Encoded(es, n, index, storage[base..]) && ValueOf(es, n) < 0x1_0000
    requires index' == Splice(index, BytesFor(n), EntryBytes(EntryOf(es, n)))
    requires es[n].content.Events? ==> |MacroBytes(es[n].content.events)| == Required(es[n])
    requires storage' == if es[n].content.Events?
                         then Splice(storage, base + Total(BlocksOf(es, n)), MacroBytes(es[n].content.events))
                         else storage
    ensures Encoded(es, n + 1, index', storage'[base..]) && |storage'| == |storage|
    ensures storage'[..base] == storage[..base]
  {
    hide Packed, Padded, MacroBytes, EntryBytes, EntriesOf, EntryOf, Required, IndexHolds, BlankFrom, Splice, BlocksOf,
         Total, ValueOf, BytesFor, Entries;
    StorageStep(es[n], storage, storage', base, base + Total(BlocksOf(es, n)));
    IndexMore(es, n, index, index');
    HeapMore(es, n, storage[base..], storage'[base..]);
  }

  lemma ValueIs(es: seq<Trigger>, n: nat)
    requires KeysFit(es) && n < |es|
    ensures ValueOf(es, n) == if es[n].content.Events? then Total(BlocksOf(es, n)) else Flagged(es[n].content.id)
  {
  }

  lemma {:induction false} NoBlocks(es: seq<Trigger>, n: nat)
    requires Sendable(es) && n <= |es| && RequiredBy(es, n) == 0
    ensures BlocksOf(es, n) == []
  {
    if n > 0 { NoBlocks(es, n - 1); }
  }

  method StorageRequired(ts: seq<Trigger>) returns (n: nat)
    ensures n == 2 + RequiredBy(ts, |ts|)
  {
    n := 2;
    var i := 0;
    while i < |ts|
      invariant 0 <= i <= |ts| && n == 2 + RequiredBy(ts, i)
    {
      if ts[i].keys != [] {
        n := n + Required(ts[i]);
      }
      i := i + 1;
    }
  }

  /** Encodes a list of triggers, leaving out those without keys. Fails exactly when an image does not fit. */
  method EncodeTriggers(ts: seq<Trigger>, indexSize: nat, storageSize: nat) returns (r: Encoding)
    requires Storable(ts) && KeysFit(ts) && storageSize < 0x1_0000
    ensures r.IndexTooSmall? <==> BytesFor(|ts|) > indexSize
    ensures r.IndexTooSmall? ==> r == IndexTooSmall(BytesFor(|ts|), indexSize)
    ensures !r.IndexTooSmall? ==>
              (r.StorageTooSmall? <==>
               2 + RequiredBy(ts, |ts|) > storageSize && (RequiredBy(ts, |ts|) > 0 || storageSize > 0))
    ensures r.StorageTooSmall? ==> r == StorageTooSmall(2 + RequiredBy(ts, |ts|), storageSize)
    ensures r.Image? ==> |r.index| == indexSize && ImageOf(InOrder(ts, |ts|), r.index, r.storage)
    ensures r.Image? ==> |r.storage| == if storageSize == 0 then 0 else 2 + RequiredBy(ts, |ts|)
  {
    hide RequiredBy, InOrder, Encoded, IndexHolds, Sendable, Storable, EntriesOf, Packed, Start;
    var indexRequired := BytesFor(|ts|);
    if indexRequired > indexSize {
      return IndexTooSmall(indexRequired, indexSize);
    }
    var required := StorageRequired(ts);
    if storageSize == 0 && required == 2 {
      required := 0;
    } else if required > storageSize {
      return StorageTooSmall(required, storageSize);
    }
    var es := InOrder(ts, |ts|);
    SortedSendable(ts);
    RequiredInOrder(ts, |ts|);
    OrderedFits(ts, indexSize);
    var storageBytes, base := [], 0;
    if required != 0 {
      storageBytes, base := WordBytes(required - 2) + Fill(0, required - 2), 2;
    }
    var index, storage := EncodeAll(es, indexSize, storageBytes, base);
    if required == 0 {
      assert storage == [];
      ImageWithout(es, index);
    } else {
      WordInFront(storage, required - 2);
      ImageWith(es, index, storage);
    }
    r := Image(index, storage);
  }

  lemma OrderedFits(ts: seq<Trigger>, indexSize: nat)
    requires KeysFit(ts) && BytesFor(|ts|) <= indexSize
    ensures BytesFor(|InOrder(ts, |ts|)|) <= indexSize
  {
    var n := |InOrder(ts, |ts|)|;
    SizesOrder(n, |ts|);
  }

  lemma SizesOrder(n: nat, m: nat)
    requires n <= m
    ensures BytesFor(n) <= BytesFor(m)
  {
  }

  lemma ImageWithout(es: seq<Trigger>, index: seq<Byte>)
    requires Sendable(es) && RequiredBy(es, |es|) == 0 && Encoded(es, |es|, index, [])
    ensures ImageOf(es, index, [])
  {
    hide Packed, Ascending, IndexHolds, EntriesOf, Required;
    SendableTotal(es, |es|);
    NoBlocks(es, |es|);
  }

  lemma ImageWith(es: seq<Trigger>, index: seq<Byte>, storage: seq<Byte>)
    requires Sendable(es) && |storage| == 2 + RequiredBy(es, |es|) < 0x1_0000
    requires ReadWord(storage, 0) == RequiredBy(es, |es|) && Encoded(es, |es|, index, storage[2..])
    ensures ImageOf(es, index, storage)
  {
    hide Packed, Ascending, IndexHolds, EntriesOf, Required, ReadWord, BlocksOf, Total, RequiredBy;
    SendableTotal(es, |es|);
  }

  lemma WordInFront(storage: seq<Byte>, w: Word)
    requires |storage| >= 2 && storage[..2] == WordBytes(w)
    ensures ReadWord(storage, 0) == w
  {
    hide Lo, Hi, MakeWord;
    assert storage[0] == storage[..2][0] && storage[1] == storage[..2][1];
  }

  // ---- what the images are for ----

  lemma {:induction false} ContentsAre(es: seq<Trigger>, n: nat, i: nat)
    requires KeysFit(es) && Ascending(es) && i < n <= |es|
    ensures Padded(es[i].keys) in ContentsOf(es, n) && ContentsOf(es, n)[Padded(es[i].keys)] == es[i].content
    decreases n
  {
    hide Rank, Padded;
    MapKeys(es, n - 1, Padded(es[n - 1].keys));
    if i < n - 1 {
      ContentsAre(es, n - 1, i);
      NewKey(es, n - 1);
    }
  }

  /** The firmware has 15 bits for the offset of a macro and the number of a program. */
  ghost predicate FirmwareFits(ts: seq<Trigger>) {
    && RequiredBy(ts, |ts|) < 0x8000
    && forall i :: 0 <= i < |ts| && ts[i].keys != [] && ts[i].content.ProgramId? ==> ts[i].content.id < 0x8000
  }

  /** Each trigger's keys are bound to its content, and nothing else is bound. */
  ghost predicate BindsExactly(bound: map<Keys, Content>, ts: seq<Trigger>) {
    && (forall t :: t in ts && t.keys != [] ==>
          |t.keys| <= MAX_KEYS && Padded(t.keys) in bound && bound[Padded(t.keys)] == t.content)
    && (forall k :: k in bound ==> exists t :: t in ts && t.keys != [] && |t.keys| <= MAX_KEYS && Padded(t.keys) == k)
  }

  lemma FittingImages(ts: seq<Trigger>)
    requires Storable(ts) && KeysFit(ts) && FirmwareFits(ts)
    ensures var es := InOrder(ts, |ts|);
            && Sendable(es) && Total(BlocksOf(es, |es|)) < 0x8000
            && forall i :: 0 <= i < |es| && es[i].content.ProgramId? ==> es[i].content.id < 0x8000
  {
    hide InOrder, BlocksOf, Ascending, RequiredBy, Storable;
    SortedSendable(ts);
    RequiredInOrder(ts, |ts|);
    var es := InOrder(ts, |ts|);
    BlocksTotal(es, |es|);
    forall i | 0 <= i < |es| && es[i].content.ProgramId?
      ensures es[i].content.id < 0x8000
    {
      assert es[i] in es;
    }
  }

  /**
   * The firmware can use the images as they are: the index is sorted with its empty entries at
   * the end, the macros tile the heap up to the stored end offset, and each key combination is
   * bound to the content of its trigger and nothing else is bound.
   */
  lemma ImagesUsable(ts: seq<Trigger>, index: seq<Byte>, storage: seq<Byte>) returns (m: map<Keys, Word>)
    requires Storable(ts) && KeysFit(ts) && FirmwareFits(ts) && ImageOf(InOrder(ts, |ts|), index, storage)
    ensures var es, s, heap := InOrder(ts, |ts|), EntriesOf(index), HeapIn(storage);
            && WellFormed(s, |es|) && |es| <= |s| && m == AsMap(s[..|es|])
            && Agree(m, BlocksOf(es, |es|), None) && Packed(heap, BlocksOf(es, |es|))
            && (storage != [] ==> |storage| >= 2 && ReadWord(storage, 0) == |heap| == Total(BlocksOf(es, |es|)))
    ensures BindsExactly(Bindings(m, HeapIn(storage), None), ts)
  {
    hide Storable, InOrder, Agree, Bindings, Packed, Start, AsMap, WellFormed, IndexHolds, EntriesOf, Padded,
         Ascending, BlocksOf, ContentsOf, MapOf, Rank, RequiredBy;
    var es, s, heap := InOrder(ts, |ts|), EntriesOf(index), HeapIn(storage);
    FittingImages(ts);
    SortedSendable(ts);
    IndexWellFormed(es, s);
    m := AllBound(es, |es|, heap);
    IndexMeaning(es, s, m);
    forall t | t in ts && t.keys != []
      ensures |t.keys| <= MAX_KEYS && Padded(t.keys) in ContentsOf(es, |es|)
      ensures ContentsOf(es, |es|)[Padded(t.keys)] == t.content
    {
      assert t in es;
      var i :| 0 <= i < |es| && es[i] == t;
      ContentsAre(es, |es|, i);
    }
    forall k | k in ContentsOf(es, |es|)
      ensures exists t :: t in ts && t.keys != [] && |t.keys| <= MAX_KEYS && Padded(t.keys) == k
    {
      MapKeys(es, |es|, k);
      var i :| 0 <= i < |es| && Padded(es[i].keys) == k;
      assert es[i] in es;
    }
  }

  // ---- reading back ----

  /** The keys of an entry up to its first unused place, each inserted where it belongs. */
  function KeysRead(keys: Keys, n: nat): seq<Byte>
    requires n <= MAX_KEYS
  {
    if n == 0 then []
    else if NO_KEY in keys[..n] then KeysRead(keys, n - 1)
    else InsertKey(KeysRead(keys, n - 1), keys[n - 1])
  }

  /** At most len bytes from a position on. */
  function Mid(data: seq<Byte>, at: nat, len: nat): seq<Byte> {
    if at >= |data| then [] else if len <= |data| - at then data[at..at + len] else data[at..]
  }

  predicate Readable(e: Entry, heap: seq<Byte>) { e.val < 0x8000 ==> e.val + HEADER <= |heap| }

  function TriggerRead(e: Entry, heap: seq<Byte>): Trigger
    requires Readable(e, heap)
  {
    Trigger(KeysRead(e.keys, MAX_KEYS),
            if e.val >= 0x8000 then ProgramId(e.val - 0x8000)
                else Events(Mid(heap, e.val + HEADER, ReadWord(heap, e.val))))
  }

  method ReadKeys(index: seq<Byte>, at: nat, ghost e: Entry) returns (keys: seq<Byte>)
    requires at + ENTRY_SIZE <= |index| && e.keys == index[at..at + MAX_KEYS]
    ensures keys == KeysRead(e.keys, MAX_KEYS)
  {
    hide InsertKey;
    keys := [];
    var k := 0;
    while k < MAX_KEYS
      invariant 0 <= k <= MAX_KEYS && keys == KeysRead(e.keys, k) && NO_KEY !in e.keys[..k]
    {
      var key := index[at + k];
      assert key == e.keys[k] && e.keys[..k + 1] == e.keys[..k] + [key];
      if key == NO_KEY {
        StopsAt(e.keys, k, MAX_KEYS);
        return;
      }
      keys := InsertKey(keys, key);
      k := k + 1;
    }
  }

  lemma {:induction false} StopsAt(keys: Keys, k: nat, n: nat)
    requires k < n <= MAX_KEYS && keys[k] == NO_KEY
    ensures KeysRead(keys, n) == KeysRead(keys, k)
  {
    assert keys[..n][k] == NO_KEY;
    if k < n - 1 { StopsAt(keys, k, n - 1); }
  }

  method ReadTrigger(index: seq<Byte>, at: nat, data: seq<Byte>, ghost e: Entry) returns (t: Trigger)
    requires at + ENTRY_SIZE <= |index| && e.keys == index[at..at + MAX_KEYS]
    requires e.val == MakeWord(index[at + MAX_KEYS], index[at + MAX_KEYS + 1]) && Readable(e, data)
    ensures t == TriggerRead(e, data)
  {
    hide KeysRead, Mid, MakeWord;
    var keys := ReadKeys(index, at, e);
    var value := MakeWord(index[at + MAX_KEYS], index[at + MAX_KEYS + 1]);
    if value >= 0x8000 {
      t := Trigger(keys, ProgramId(value - 0x8000));
    } else {
      var length := ReadWord(data, value);
      t := Trigger(keys, Events(Mid(data, value + HEADER, length)));
    }
  }

  /** The used entries end with entry n: the next one is empty, or there is nothing behind them. */
  predicate EndsAt(index: seq<Byte>, n: nat) {
    BytesFor(n) == |index| || (BytesFor(n) < |index| && index[BytesFor(n)] == NO_KEY)
  }

  /** Reads the triggers of an index image up to its first empty entry or its end. */
  method ReadTriggers(index: seq<Byte>, storage: seq<Byte>, ghost n: nat) returns (ts: seq<Trigger>)
    requires EndsAt(index, n) && n <= |EntriesOf(index)|
    requires forall i :: 0 <= i < n ==> Used(EntriesOf(index)[i]) && Readable(EntriesOf(index)[i], HeapIn(storage))
    ensures |ts| == n && forall i :: 0 <= i < n ==> ts[i] == TriggerRead(EntriesOf(index)[i], HeapIn(storage))
  {
    hide KeysRead, TriggerRead, Readable, EntriesOf, HeapIn, EntryAt;
    var data := HeapIn(storage);
    ts := [];
    var at := 0;
    ghost var i := 0;
    while at < |index| && index[at] != NO_KEY
      invariant 0 <= i <= n && at == BytesFor(i)
      invariant |ts| == i && forall k :: 0 <= k < i ==> ts[k] == TriggerRead(EntriesOf(index)[k], data)
      decreases n - i
    {
      EntryBounds(index, i);
      var t := ReadTrigger(index, at, data, EntriesOf(index)[i]);
      ts := ts + [t];
      at := at + ENTRY_SIZE;
      i := i + 1;
    }
    if i < n { EntryBounds(index, i); }
  }

  lemma EntryBounds(index: seq<Byte>, i: nat)
    ensures i < |EntriesOf(index)| ==>
              var at, e := BytesFor(i), EntriesOf(index)[i];
              && at + ENTRY_SIZE <= |index| && index[at] == e.keys[0] && e.keys == index[at..at + MAX_KEYS]
              && e.val == MakeWord(index[at + MAX_KEYS], index[at + MAX_KEYS + 1])
  {
  }

  /** A stored key list reads back as it was. */
  lemma {:induction false} KeysReadBack(keys: seq<Byte>, n: nat)
    requires KeyList(keys) && n <= MAX_KEYS
    ensures KeysRead(Padded(keys), n) == keys[..if n <= |keys| then n else |keys|]
  {
    hide Padded, InsertKey, KeyList;
    if n > 0 {
      KeysReadBack(keys, n - 1);
      PaddedFront(keys, n);
      if n <= |keys| {
        InsertLast(keys[..n - 1], keys[n - 1]);
        assert keys[..n] == keys[..n - 1] + [keys[n - 1]];
      }
    }
  }

  predicate AllBelow(keys: seq<Byte>, k: Byte) { forall i :: 0 <= i < |keys| ==> keys[i] < k }

  lemma PaddedFront(keys: seq<Byte>, n: nat)
    requires KeyList(keys) && 0 < n <= MAX_KEYS
    ensures |keys| <= MAX_KEYS && (NO_KEY in Padded(keys)[..n] <==> n > |keys|)
    ensures n <= |keys| ==> Padded(keys)[n - 1] == keys[n - 1] && AllBelow(keys[..n - 1], keys[n - 1])
  {
    if n <= |keys| {
      assert Padded(keys)[..n] == keys[..n];
    } else {
      assert Padded(keys)[..n][n - 1] == NO_KEY;
    }
  }

  lemma InsertLast(keys: seq<Byte>, k: Byte)
    requires AllBelow(keys, k)
    ensures InsertKey(keys, k) == keys + [k]
  {
    assert LowerBound(keys, k) == |keys|;
  }

  /** What trigger i reads back as: an offset with the top bit set looks like a program. */
  function ReadAs(es: seq<Trigger>, i: nat): Content
    requires i < |es|
  {
    match es[i].content
    case Events(events) => if RequiredBy(es, i) < 0x8000 then Events(events) else ProgramId(RequiredBy(es, i) - 0x8000)
    case ProgramId(id) => ProgramId(if id < 0x8000 then id else id - 0x8000)
  }

  /** Every macro begins in the first 32 KB and every program number has 15 bits. */
  predicate Addressable(es: seq<Trigger>) {
    forall i :: 0 <= i < |es| ==>
      if es[i].content.Events? then RequiredBy(es, i) < 0x8000 else es[i].content.id < 0x8000
  }

  lemma {:induction false} PartPacked(es: seq<Trigger>, n: nat, m: nat, heap: seq<Byte>)
    requires Sendable(es) && n <= m <= |es| && Packed(heap, BlocksOf(es, m))
    ensures KeysFit(es) && Packed(heap, BlocksOf(es, n))
    decreases m
  {
    hide Packed, BlocksOf, Ascending;
    SendableFits(es);
    if n < m {
      FrontPacked(es, m, heap);
      PartPacked(es, n, m - 1, heap);
    }
  }

  /** A macro lies at its offset. */
  lemma MacroInHeap(es: seq<Trigger>, i: nat, heap: seq<Byte>)
    requires Sendable(es) && i < |es| && es[i].content.Events? && Packed(heap, BlocksOf(es, i + 1))
    ensures |es[i].content.events| < 0x1_0000
    ensures var at, data := Total(BlocksOf(es, i)), MacroBytes(es[i].content.events);
            at + |data| <= |heap| && heap[at..at + |data|] == data
  {
    hide Start, Padded, Ascending, MacroBytes;
    var bs, b := BlocksOf(es, i), Block(Padded(es[i].keys), MacroBytes(es[i].content.events));
    TotalAppend(bs, b);
    LastInPlace(heap, bs, b);
  }

  lemma LastInPlace(heap: seq<Byte>, bs: seq<MacroBlock>, b: MacroBlock)
    requires Packed(heap, bs + [b])
    ensures Total(bs) + |b.data| <= |heap| && heap[Total(bs)..Total(bs) + |b.data|] == b.data
  {
    TotalAppend(bs, b);
    assert InPlace(heap, bs + [b], |bs|);
    StartInAppend(bs, b, |bs|);
  }

  lemma MacroRead(heap: seq<Byte>, at: nat, events: seq<Byte>)
    requires |events| < 0x1_0000 && at + HEADER + |events| <= |heap|
    requires heap[at..at + HEADER + |events|] == MacroBytes(events)
    ensures ReadWord(heap, at) == |events| && Mid(heap, at + HEADER, |events|) == events
  {
    hide Lo, Hi, MakeWord, MacroBytes;
    var data, end := MacroBytes(events), at + HEADER + |events|;
    MacroLength(events);
    MacroParts(events);
    assert heap[at..end][0] == heap[at] && heap[at..end][1] == heap[at + 1];
    assert heap[at..end][HEADER..] == heap[at + HEADER..end];
  }

  lemma MacroParts(events: seq<Byte>)
    requires |events| < 0x1_0000
    ensures var data := MacroBytes(events);
            |data| == HEADER + |events| && MakeWord(data[0], data[1]) == |events| && data[HEADER..] == events
  {
  }

  lemma ValueRead(es: seq<Trigger>, i: nat, heap: seq<Byte>)
    requires Sendable(es) && i < |es| && RequiredBy(es, |es|) < 0x1_0000 && Packed(heap, BlocksOf(es, |es|))
    ensures var value := ValueOf(es, i);
            && value < 0x1_0000 && (value < 0x8000 ==> value + HEADER <= |heap|)
            && ReadAs(es, i) == if value >= 0x8000 then ProgramId(value - 0x8000)
                                else Events(Mid(heap, value + HEADER, ReadWord(heap, value)))
  {
    hide Packed, BlocksOf, ReadWord, Mid, MacroBytes, RequiredBy, Total, Sendable;
    SendableAt(es, i);
    if es[i].content.Events? {
      MacroAtValue(es, i, heap);
    }
  }

  lemma SendableAt(es: seq<Trigger>, i: nat)
    requires Sendable(es) && i < |es|
    ensures KeysFit(es) && es[i].keys != [] && |es[i].keys| <= MAX_KEYS && ContentFits(es[i].content)
  {
  }

  lemma MacroAtValue(es: seq<Trigger>, i: nat, heap: seq<Byte>)
    requires Sendable(es) && i < |es| && RequiredBy(es, |es|) < 0x1_0000 && Packed(heap, BlocksOf(es, |es|))
    requires es[i].content.Events?
    ensures var at, events := RequiredBy(es, i), es[i].content.events;
            && at == Total(BlocksOf(es, i)) < 0x1_0000 && at + HEADER <= |heap|
            && Mid(heap, at + HEADER, ReadWord(heap, at)) == events
  {
    hide Packed, BlocksOf, ReadWord, Mid, MacroBytes, RequiredBy, Total, Ascending;
    var events := es[i].content.events;
    BlocksTotal(es, i);
    RequiredGrows(es, i, |es|);
    PartPacked(es, i + 1, |es|, heap);
    MacroInHeap(es, i, heap);
    MacroLength(events);
    MacroRead(heap, Total(BlocksOf(es, i)), events);
  }

  lemma EntryReadBack(es: seq<Trigger>, i: nat, heap: seq<Byte>)
    requires Sendable(es) && i < |es| && KeyList(es[i].keys) && RequiredBy(es, |es|) < 0x1_0000
    requires Packed(heap, BlocksOf(es, |es|))
    ensures ValueOf(es, i) < 0x1_0000 && Readable(EntryOf(es, i), heap)
    ensures TriggerRead(EntryOf(es, i), heap) == Trigger(es[i].keys, ReadAs(es, i))
  {
    hide Packed, BlocksOf, Padded, Ascending, KeysRead, ReadWord, Mid, KeyList, RequiredBy, ValueOf, ReadAs;
    SendableFits(es);
    ValueRead(es, i, heap);
    KeysReadBack(es[i].keys, MAX_KEYS);
    assert es[i].keys[..|es[i].keys|] == es[i].keys;
  }

  /** Reading an image entry by entry yields the sorted triggers, with contents as far as they are addressable. */
  lemma RoundTrip(ts: seq<Trigger>, index: seq<Byte>, storage: seq<Byte>)
    requires Storable(ts) && KeysFit(ts) && RequiredBy(ts, |ts|) < 0x1_0000
    requires ImageOf(InOrder(ts, |ts|), index, storage)
    ensures var es, s, heap := InOrder(ts, |ts|), EntriesOf(index), HeapIn(storage);
            && |es| <= |s| && EndsAt(index, |es|)
            && (forall i :: 0 <= i < |es| ==> Used(s[i]) && Readable(s[i], heap)
                                              && TriggerRead(s[i], heap) == Trigger(es[i].keys, ReadAs(es, i)))
  {
    hide Packed, Start, EntriesOf, Padded, BlocksOf, InOrder, KeysRead, ReadWord, ValueOf, TriggerRead, Readable,
         Storable, Ascending, RankOf, RequiredBy, ReadAs;
    var es, s, heap := InOrder(ts, |ts|), EntriesOf(index), HeapIn(storage);
    SortedSendable(ts);
    RequiredInOrder(ts, |ts|);
    IndexWellFormed(es, s);
    IndexEnd(index, |es|);
    forall i | 0 <= i < |es|
      ensures Used(s[i]) && Readable(s[i], heap) && TriggerRead(s[i], heap) == Trigger(es[i].keys, ReadAs(es, i))
    {
      assert es[i] in es && s[i] == EntryOf(es, i);
      StorableKeyList(ts, es[i]);
      EntryReadBack(es, i, heap);
    }
  }

  lemma IndexEnd(index: seq<Byte>, n: nat)
    requires n <= |EntriesOf(index)| && BlankFrom(index, BytesFor(n))
    ensures EndsAt(index, n)
  {
  }

  lemma StorableKeyList(ts: seq<Trigger>, t: Trigger)
    requires Storable(ts) && t in ts
    ensures KeyList(t.keys)
  {
  }

  lemma ReadAsIff(es: seq<Trigger>, back: seq<Trigger>)
    requires |back| == |es| && forall i :: 0 <= i < |es| ==> back[i] == Trigger(es[i].keys, ReadAs(es, i))
    ensures back == es <==> Addressable(es)
  {
    hide RequiredBy;
    forall i | 0 <= i < |es|
      ensures back[i] == es[i] <==>
              if es[i].content.Events? then RequiredBy(es, i) < 0x8000 else es[i].content.id < 0x8000
    {
    }
  }

  /** Images that fit the firmware are addressable. */
  lemma FittingAddressable(ts: seq<Trigger>)
    requires Storable(ts) && KeysFit(ts) && FirmwareFits(ts)
    ensures Addressable(InOrder(ts, |ts|))
  {
    hide InOrder, RequiredBy, Storable, Sendable, BlocksOf, Total;
    FittingImages(ts);
    RequiredInOrder(ts, |ts|);
    var es := InOrder(ts, |ts|);
    forall i | 0 <= i < |es|
      ensures if es[i].content.Events? then RequiredBy(es, i) < 0x8000 else es[i].content.id < 0x8000
    {
      RequiredGrows(es, i, |es|);
    }
  }

  /** Two triggers that a device can have room for, of which the second does not come back. */
  lemma LateMacroLost() returns (ts: seq<Trigger>)
    ensures Storable(ts) && KeysFit(ts) && 2 + RequiredBy(ts, |ts|) < 0x1_0000
    ensures InOrder(ts, |ts|) == ts && !Addressable(ts)
  {
    hide Padded, Compare;
    var first, second := Trigger([1], Events(Fill(0, 0x7FFE))), Trigger([2], Events([]));
    ts := [first, second];
    assert RequiredBy(ts, 1) == RequiredBy(ts, 0) + Required(first) == 0x8000;
    assert RequiredBy(ts, 2) == RequiredBy(ts, 1) + Required(second);
    PaddedOrder();
    assert InOrder(ts, 1) == Place(InOrder(ts, 0), first) == [first];
  }

  lemma PaddedOrder()
    ensures Compare(Padded([1]), Padded([2])) < 0
  {
    assert Padded([1])[0] == 1 && Padded([2])[0] == 2;
  }

  /**
   * Encoding and then reading: whenever the images fit, the same triggers come back, in key
   * order, if and only if they are all addressable.
   */
  method EncodeAndRead(ts: seq<Trigger>, indexSize: nat, storageSize: nat) returns (r: Encoding, back: seq<Trigger>)
    requires Storable(ts) && KeysFit(ts) && storageSize < 0x1_0000
    ensures r.Image? <==> BytesFor(|ts|) <= indexSize
                          && (2 + RequiredBy(ts, |ts|) <= storageSize || (RequiredBy(ts, |ts|) == 0 == storageSize))
    ensures r.Image? ==> (back == InOrder(ts, |ts|) <==> Addressable(InOrder(ts, |ts|)))
    ensures r.Image? && FirmwareFits(ts) ==> back == InOrder(ts, |ts|)
  {
    hide Storable, RequiredBy, InOrder, ImageOf, Addressable, ReadAs, TriggerRead, Readable, EntriesOf, HeapIn, EndsAt,
         FirmwareFits;
    r := EncodeTriggers(ts, indexSize, storageSize);
    back := [];
    if r.Image? {
      ghost var es := InOrder(ts, |ts|);
      RoundTrip(ts, r.index, r.storage);
      back := ReadTriggers(r.index, r.storage, |es|);
      ReadAsIff(es, back);
      if FirmwareFits(ts) {
        FittingAddressable(ts);
      }
    }
  }
}
