/**
 * Debouncing of the key matrix (keystate.c). The last few scans are kept as bit rows in a ring;
 * each step combines whole words of them, which debounces eight keys at a time.
 */
module Debouncing {
  import opened Bytes
  import PagedMemory
  import ExtraReport

  const MAX_SCANS: nat := 8
  const WORD_BITS: nat := 8

  // ---- one key, by itself ----

  type Scan = set<Byte>

  /** Key p was down in the scan `age` scans ago. Before the first scan no key was down. */
  predicate Seen(history: seq<Scan>, age: nat, p: Byte) {
    age < |history| && p in history[|history| - 1 - age]
  }

  ghost predicate AlwaysSeen(history: seq<Scan>, n: nat, p: Byte) {
    forall age :: 0 <= age < n ==> Seen(history, age, p)
  }

  ghost predicate EverSeen(history: seq<Scan>, n: nat, p: Byte) {
    exists age :: 0 <= age < n && Seen(history, age, p)
  }

  /** A key turns on when it was down in all of the last n scans, and off when it was down in none of them. */
  ghost predicate On(history: seq<Scan>, n: nat, p: Byte) {
    history != []
    && (AlwaysSeen(history, n, p) || (EverSeen(history, n, p) && On(history[..|history| - 1], n, p)))
  }

  /** A key that was just turned on. */
  ghost predicate TurnedOn(history: seq<Scan>, n: nat, p: Byte) {
    history != [] && On(history, n, p) && !On(history[..|history| - 1], n, p)
  }

  /** A change of state needs the last n scans to agree. */
  lemma ChangeNeedsAgreement(history: seq<Scan>, n: nat, p: Byte)
    requires history != [] && n > 0
    ensures TurnedOn(history, n, p) <==> AlwaysSeen(history, n, p) && !On(history[..|history| - 1], n, p)
    ensures On(history[..|history| - 1], n, p) && !On(history, n, p)
            <==> !EverSeen(history, n, p) && On(history[..|history| - 1], n, p)
  {
    if AlwaysSeen(history, n, p) { assert Seen(history, 0, p); }
  }

  // ---- words of bits ----

  predicate Bit(m: bv8, b: nat) { ExtraReport.Bit(m, b) }

  lemma AndBit(x: bv8, y: bv8, b: nat)
    requires b < WORD_BITS
    ensures Bit(x & y, b) <==> Bit(x, b) && Bit(y, b)
  {
  }

  lemma OrBit(x: bv8, y: bv8, b: nat)
    requires b < WORD_BITS
    ensures Bit(x | y, b) <==> Bit(x, b) || Bit(y, b)
  {
  }

  lemma NotBit(x: bv8, b: nat)
    requires b < WORD_BITS
    ensures Bit(!x, b) <==> !Bit(x, b)
    ensures Bit(!0, b) && !Bit(0, b)
  {
  }

  lemma SetBit(x: bv8, i: nat, b: nat)
    requires i < WORD_BITS && b < WORD_BITS
    ensures Bit(x | ExtraReport.Mask(i), b) <==> Bit(x, b) || i == b
  {
  }

  /** One key's share of a step on a whole word. */
  lemma RisingBit(was: bv8, all: bv8, b: nat)
    requires b < WORD_BITS
    ensures Bit(!was & all, b) <==> !Bit(was, b) && Bit(all, b)
  {
    hide Bit;
    NotBit(was, b);
    AndBit(!was, all, b);
  }

  lemma KeptBit(was: bv8, all: bv8, any: bv8, b: nat)
    requires b < WORD_BITS
    ensures Bit((was | all) & any, b) <==> (Bit(was, b) || Bit(all, b)) && Bit(any, b)
  {
    hide Bit;
    OrBit(was, all, b);
    AndBit(was | all, any, b);
  }

  /** The state bit and the turned-on bit of key p. */
  ghost predicate KeyBits(on: bv8, turnedOn: bv8, b: nat, history: seq<Scan>, n: nat, p: Byte) {
    (Bit(on, b) <==> On(history, n, p)) && (Bit(turnedOn, b) <==> TurnedOn(history, n, p))
  }

  lemma StepBits(was: bv8, all: bv8, any: bv8, b: nat, history: seq<Scan>, n: nat, p: Byte)
    requires b < WORD_BITS && n > 0 && history != [] && (Bit(was, b) <==> On(history[..|history| - 1], n, p))
    requires Bit(all, b) <==> AlwaysSeen(history, n, p)
    requires Bit(any, b) <==> EverSeen(history, n, p)
    ensures KeyBits((was | all) & any, !was & all, b, history, n, p)
  {
    hide Bit, Seen;
    RisingBit(was, all, b);
    KeptBit(was, all, any, b);
    ChangeNeedsAgreement(history, n, p);
    if AlwaysSeen(history, n, p) { assert Seen(history, 0, p); }
  }

  /** Bit b of word w is for key 8w + b. */
  function KeyOf(w: nat, b: nat): nat { WORD_BITS * w + b }

  lemma KeyPlace(p: nat)
    ensures p % WORD_BITS < WORD_BITS && KeyOf(p / WORD_BITS, p % WORD_BITS) == p
  {
  }

  lemma KeyPlaceUnique(w: nat, b: nat)
    requires b < WORD_BITS
    ensures KeyOf(w, b) / WORD_BITS == w && KeyOf(w, b) % WORD_BITS == b
  {
  }

  // ---- the ring ----

  /** How many scans ago row i of a ring of n rows was written. */
  function Age(index: nat, n: nat, i: nat): nat
    requires index < n && i < n
  {
    if i <= index then index - i else index + n - i
  }

  lemma AgesCover(index: nat, n: nat, age: nat) returns (i: nat)
    requires index < n && age < n
    ensures i < n && Age(index, n, i) == age
  {
    i := if age <= index then index - age else index + n - age;
  }

  /** The keys down in one scan: the matrix says which key is at each place. */
  function KeysDown(matrix: seq<Byte>, down: seq<bool>, n: nat): (r: Scan)
    requires n <= |matrix| == |down|
    ensures forall p :: p in r <==> exists i :: 0 <= i < n && matrix[i] == p && down[i] && p != NO_KEY
  {
    set i | 0 <= i < n && down[i] && matrix[i] != NO_KEY :: matrix[i]
  }

  lemma OneMoreDown(matrix: seq<Byte>, down: seq<bool>, n: nat)
    requires n < |matrix| == |down|
    ensures KeysDown(matrix, down, n + 1)
         == KeysDown(matrix, down, n) + if matrix[n] != NO_KEY && down[n] then {matrix[n]} else {}
  {
  }

  /** A scan later, every other row is one scan older. */
  lemma AgesAdvance(index: nat, n: nat, i: nat)
    requires index < n && i < n
    ensures var next := (index + 1) % n; next < n && Age(next, n, next) == 0
    ensures var next := (index + 1) % n; i != next ==> Age(next, n, i) == Age(index, n, i) + 1
  {
    PagedMemory.ModUnique(n, if index + 1 == n then 1 else 0, if index + 1 == n then 0 else index + 1);
  }

  lemma SeenLater(history: seq<Scan>, now: Scan, age: nat, p: Byte)
    ensures Seen(history + [now], age + 1, p) <==> Seen(history, age, p)
    ensures Seen(history + [now], 0, p) <==> p in now
  {
  }

  class Debouncer {
    const length: nat               // scans that must agree
    const words: nat
    const matrix: seq<Byte>         // the key at each place of the matrix, or NO_KEY
    const ring: array2<bv8>
    const on: array<bv8>
    const turnedOn: array<bv8>
    var index: nat                  // the row of the latest scan
    ghost var history: seq<Scan>

    ghost predicate Shaped()
      reads `index
    {
      && 0 < length <= MAX_SCANS && words * WORD_BITS <= 256 && index < length
      && ring.Length0 == MAX_SCANS && ring.Length1 == words
      && on.Length == words && turnedOn.Length == words && on != turnedOn
      && forall i :: 0 <= i < |matrix| ==> matrix[i] == NO_KEY || matrix[i] as int < words * WORD_BITS
    }

    /** Row i holds the scan of its age. */
    ghost predicate RowHolds(i: nat, w: nat, b: nat)
      requires Shaped() && i < length && w < words && b < WORD_BITS
      reads `index, `history, ring
    {
      Bit(ring[i, w], b) <==> Seen(history, Age(index, length, i), KeyOf(w, b))
    }

    ghost predicate RingValid()
      reads `index, `history, ring
    {
      Shaped() && forall i, w, b :: 0 <= i < length && 0 <= w < words && 0 <= b < WORD_BITS ==> RowHolds(i, w, b)
    }

    /** The bits of a word are exactly the states of eight independent keys. */
    ghost predicate Valid()
      reads this, ring, on, turnedOn
    {
      && RingValid()
      && forall w, b :: 0 <= w < words && 0 <= b < WORD_BITS ==>
           KeyBits(on[w], turnedOn[w], b, history, length, KeyOf(w, b))
    }

    constructor (length: nat, words: nat, matrix: seq<Byte>)
      requires 0 < length <= MAX_SCANS && words * WORD_BITS <= 256
      requires forall i :: 0 <= i < |matrix| ==> matrix[i] == NO_KEY || matrix[i] as int < words * WORD_BITS
      ensures Valid() && history == [] && fresh(ring) && fresh(on) && fresh(turnedOn)
      ensures this.length == length && this.words == words && this.matrix == matrix
    {
      this.length, this.words, this.matrix := length, words, matrix;
      ring := new bv8[MAX_SCANS, words]((_, _) => 0);
      on := new bv8[words](_ => 0);
      turnedOn := new bv8[words](_ => 0);
      index, history := 0, [];
      new;
      forall i, w, b | 0 <= i < length && 0 <= w < words && 0 <= b < WORD_BITS
        ensures RowHolds(i, w, b)
      {
        NotBit(0, b);
      }
      forall w, b | 0 <= w < words && 0 <= b < WORD_BITS
        ensures KeyBits(on[w], turnedOn[w], b, history, length, KeyOf(w, b))
      {
        NotBit(0, b);
      }
    }

    /** A key's bit in the given words. */
    predicate KeyBit(field: array<bv8>, p: Byte)
      requires p as int < field.Length * WORD_BITS
      reads field
    {
      Bit(field[p / WORD_BITS], p % WORD_BITS)
    }

    lemma IsOn(p: Byte)
      requires Valid() && p as int < words * WORD_BITS
      ensures KeyBit(on, p) <==> On(history, length, p)
      ensures KeyBit(turnedOn, p) <==> TurnedOn(history, length, p)
    {
      KeyPlace(p);
      assert KeyBits(on[p / WORD_BITS], turnedOn[p / WORD_BITS], p % WORD_BITS, history, length, p);
    }

    /** Sets the bits of the keys that are down in one row. */
    method ReadMatrix(row: nat, down: seq<bool>)
      requires Shaped() && row < length && |down| == |matrix|
      modifies ring
      ensures forall w, b :: 0 <= w < words && 0 <= b < WORD_BITS ==>
                (Bit(ring[row, w], b) <==> KeyOf(w, b) in KeysDown(matrix, down, |matrix|))
      ensures forall i, w :: 0 <= i < length && i != row && 0 <= w < words ==> ring[i, w] == old(ring[i, w])
    {
      hide Bit;
      forall w | 0 <= w < words {
        ring[row, w] := 0;
      }
      forall b | 0 <= b < WORD_BITS
        ensures !Bit(0, b)
      {
        NotBit(0, b);
      }
      var n := 0;
      while n < |matrix|
        invariant 0 <= n <= |matrix|
        invariant forall w, b :: 0 <= w < words && 0 <= b < WORD_BITS ==>
                    (Bit(ring[row, w], b) <==> KeyOf(w, b) in KeysDown(matrix, down, n))
        invariant forall i, w :: 0 <= i < length && i != row && 0 <= w < words ==> ring[i, w] == old(ring[i, w])
      {
        OneMoreDown(matrix, down, n);
        if matrix[n] != NO_KEY && down[n] {
          SetKeyBit(row, matrix[n]);
        }
        n := n + 1;
      }
    }

    method SetKeyBit(row: nat, p: Byte)
      requires Shaped() && row < length && p as int < words * WORD_BITS
      modifies ring
      ensures forall w, b :: 0 <= w < words && 0 <= b < WORD_BITS ==>
                (Bit(ring[row, w], b) <==> old(Bit(ring[row, w], b)) || KeyOf(w, b) == p)
      ensures forall i, w :: 0 <= i < length && i != row && 0 <= w < words ==> ring[i, w] == old(ring[i, w])
    {
      hide Bit;
      var word, bit := p / WORD_BITS, p % WORD_BITS;
      KeyPlace(p);
      ghost var was := ring[row, word];
      ring[row, word] := ring[row, word] | ExtraReport.Mask(bit);
      forall w, b | 0 <= w < words && 0 <= b < WORD_BITS
        ensures Bit(ring[row, w], b) <==> old(Bit(ring[row, w], b)) || KeyOf(w, b) == p
      {
        KeyPlaceUnique(w, b);
        SetBit(was, bit, b);
      }
    }

    /** Starts a new row for the latest scan. */
    method TakeScan(down: seq<bool>)
      requires RingValid() && |down| == |matrix|
      modifies `index, `history, ring
      ensures RingValid() && history == old(history) + [KeysDown(matrix, down, |matrix|)]
    {
      hide Bit, Seen;
      ghost var before := history;
      AgesAdvance(index, length, index);
      index := (index + 1) % length;
      ReadMatrix(index, down);
      history := history + [KeysDown(matrix, down, |matrix|)];
      forall i, w, b | 0 <= i < length && 0 <= w < words && 0 <= b < WORD_BITS
        ensures RowHolds(i, w, b)
      {
        AgesAdvance(old(index), length, i);
        SeenLater(before, history[|before|], if i == index then 0 else Age(old(index), length, i), KeyOf(w, b));
        assert old(RowHolds(i, w, b));
      }
    }

    /** Key bit b of word w in the rows below k. */
    ghost predicate InAll(k: nat, w: nat, b: nat)
      requires Shaped() && k <= length && w < words
      reads `index, ring
    {
      forall i :: 0 <= i < k ==> Bit(ring[i, w], b)
    }

    ghost predicate InSome(k: nat, w: nat, b: nat)
      requires Shaped() && k <= length && w < words
      reads `index, ring
    {
      exists i :: 0 <= i < k && Bit(ring[i, w], b)
    }

    /** Both words agree with the rows below k. */
    ghost predicate Combined(all: bv8, any: bv8, k: nat, w: nat, b: nat)
      requires Shaped() && k <= length && w < words
      reads `index, ring
    {
      (Bit(all, b) <==> InAll(k, w, b)) && (Bit(any, b) <==> InSome(k, w, b))
    }

    lemma OneMoreRow(all: bv8, any: bv8, k: nat, w: nat, b: nat, all': bv8, any': bv8)
      requires Shaped() && k < length && w < words && b < WORD_BITS && Combined(all, any, k, w, b)
      requires Bit(all', b) <==> Bit(all, b) && Bit(ring[k, w], b)
      requires Bit(any', b) <==> Bit(any, b) || Bit(ring[k, w], b)
      ensures Combined(all', any', k + 1, w, b)
    {
      hide Bit;
    }

    /** One word of all kept scans: the bits set in every row, and those set in some row. */
    method CombineRows(w: nat) returns (all: bv8, any: bv8)
      requires Shaped() && w < words
      ensures forall b :: 0 <= b < WORD_BITS ==> Combined(all, any, length, w, b)
    {
      hide Bit;
      all, any := !0, 0;
      forall b | 0 <= b < WORD_BITS
        ensures Combined(all, any, 0, w, b)
      {
        NotBit(0, b);
      }
      var i := 0;
      while i < length
        invariant 0 <= i <= length
        invariant forall b :: 0 <= b < WORD_BITS ==> Combined(all, any, i, w, b)
      {
        var row := ring[i, w];
        var next, all', any' := i + 1, all & row, any | row;
        forall b | 0 <= b < WORD_BITS
          ensures Combined(all', any', next, w, b)
        {
          AndBit(all, row, b);
          OrBit(any, row, b);
          OneMoreRow(all, any, i, w, b, all', any');
        }
        all, any, i := all', any', next;
      }
    }

    /** The rows are the kept scans, in some order. */
    lemma RowsAreScans(w: nat, b: nat)
      requires RingValid() && w < words && b < WORD_BITS
      ensures InAll(length, w, b) <==> AlwaysSeen(history, length, KeyOf(w, b))
      ensures InSome(length, w, b) <==> EverSeen(history, length, KeyOf(w, b))
    {
      hide Bit, Seen;
      var p: Byte := KeyOf(w, b);
      forall i | 0 <= i < length
        ensures Bit(ring[i, w], b) <==> Seen(history, Age(index, length, i), p)
      {
        assert RowHolds(i, w, b);
      }
      if InAll(length, w, b) {
        forall age | 0 <= age < length
          ensures Seen(history, age, p)
        {
          var i := AgesCover(index, length, age);
          assert Bit(ring[i, w], b);
        }
      }
      if EverSeen(history, length, p) {
        var age :| 0 <= age < length && Seen(history, age, p);
        var i := AgesCover(index, length, age);
        assert Bit(ring[i, w], b);
      }
    }

    /** Updates one word of key states from the kept scans. */
    method DebounceWord(w: nat, ghost before: seq<Scan>)
      requires RingValid() && w < words && history != [] && before == history[..|history| - 1]
      requires forall b :: 0 <= b < WORD_BITS ==> (Bit(on[w], b) <==> On(before, length, KeyOf(w, b)))
      modifies on, turnedOn
      ensures forall b :: 0 <= b < WORD_BITS ==> KeyBits(on[w], turnedOn[w], b, history, length, KeyOf(w, b))
      ensures forall v :: 0 <= v < words && v != w ==> on[v] == old(on[v]) && turnedOn[v] == old(turnedOn[v])
    {
      hide Bit, Seen, AlwaysSeen, EverSeen, RowHolds, InAll, InSome, On, KeyBits;
      var all, any := CombineRows(w);
      var was := on[w];
      var on', turnedOn' := (was | all) & any, !was & all;
      forall b | 0 <= b < WORD_BITS
        ensures KeyBits(on', turnedOn', b, history, length, KeyOf(w, b))
      {
        assert Combined(all, any, length, w, b);
        RowsAreScans(w, b);
        StepBits(was, all, any, b, history, length, KeyOf(w, b));
      }
      turnedOn[w], on[w] := turnedOn', on';
    }

    /** One scan: each of the eight bits of every word steps as its own key would. */
    method Update(down: seq<bool>)
      requires Valid() && |down| == |matrix|
      modifies this`index, this`history, ring, on, turnedOn
      ensures Valid() && history == old(history) + [KeysDown(matrix, down, |matrix|)]
    {
      hide Bit, On, TurnedOn, RowHolds, KeysDown;
      ghost var before := history;
      assert forall v, b :: 0 <= v < words && 0 <= b < WORD_BITS ==>
          (Bit(on[v], b) <==> On(before, length, KeyOf(v, b)));
      TakeScan(down);
      assert history[..|history| - 1] == before;
      var w := 0;
      while w < words
        invariant 0 <= w <= words && RingValid() && history == before + [KeysDown(matrix, down, |matrix|)]
        invariant forall v, b :: 0 <= v < w && 0 <= b < WORD_BITS ==>
                KeyBits(on[v], turnedOn[v], b, history, length, KeyOf(v, b))
        invariant forall v, b :: w <= v < words && 0 <= b < WORD_BITS ==>
                (Bit(on[v], b) <==> On(before, length, KeyOf(v, b)))
      {
        DebounceWord(w, before);
        w := w + 1;
      }
    }
  }
}
