/**
 * All programs share the six codes of one keyboard report (interpreter.c): each running machine
 * appends its keys in turn. Key code 0 marks a free place in the report, so a program that
 * presses it can open a gap.
 */
module VmReports {
  import opened Bytes
  import opened ExtraReport
  import opened StackMachine
  import VirtualMachine

  // ---- key code zero ----

  /** Nothing is held in a slot behind key code 0. */
  ghost predicate ZeroLast(keys: seq<Byte>) {
    forall i, j :: 0 <= i < j < |keys| && keys[i] == 0 ==> keys[j] == NO_KEY
  }

  /** A zero that is the last new key is written over a zero. */
  lemma {:induction false} NewKeysWithZero(keys: seq<Byte>, taken: seq<Byte>, i: nat, n: nat)
    requires DistinctKeys(keys) && ZeroLast(keys) && 0 !in taken && i < |keys| && keys[i] == 0 && n <= |keys|
    ensures NewKeys(keys[i := NO_KEY], taken, n) == NewKeys(keys, taken, if n <= i then n else i)
    ensures n > i ==> NewKeys(keys, taken, n) == NewKeys(keys, taken, i) + [0]
    decreases n
  {
    if n > 0 { NewKeysWithZero(keys, taken, i, n - 1); }
  }

  lemma MergeZero(codes: seq<Byte>, w: seq<Byte>)
    requires Gapless(codes) && UsedCodes(codes) + |w| < |codes|
    ensures Merged(codes, w + [0]) == Merged(codes, w)
  {
    var used := UsedCodes(codes);
    assert forall i :: used <= i < |codes| ==> codes[i] == 0;
  }

  /** Under ZeroLast a held key 0 makes no difference. */
  lemma ZeroDropped(codes: seq<Byte>, keys: seq<Byte>, i: nat)
    requires Gapless(codes) && DistinctKeys(keys) && ZeroLast(keys) && i < |keys| && keys[i] == 0
    ensures Appended(codes, keys) == Appended(codes, keys[i := NO_KEY])
  {
    hide Merged;
    var used, now := UsedCodes(codes), keys[i := NO_KEY];
    var taken := codes[..used];
    NewKeysWithZero(keys, taken, i, |keys|);
    var w := NewKeys(keys, taken, i);
    if used + |w| < |codes| { MergeZero(codes, w); }
    assert (w + [0])[..|w|] == w;
    if used + |w| >= |codes| { assert (w + [0])[..|codes| - used] == w[..|codes| - used]; }
  }

  /** What one machine's keys do to a report without gaps. */
  ghost predicate MergesWell(codes: seq<Byte>, keys: seq<Byte>, r: seq<Byte>) {
    && |r| == |codes| && codes[..UsedCodes(codes)] <= r && UsedCodes(codes) <= UsedCodes(r)
    && Gapless(r) && NoRepeats(r)
    && (forall x: Byte :: x in r && x != 0 ==> x in codes || (x in keys && x != NO_KEY))
    && (forall x: Byte :: x in keys && x != 0 && x != NO_KEY ==> x in r || Full(r))
  }

  lemma MergesWellWhen(codes: seq<Byte>, keys: seq<Byte>)
    requires Gapless(codes) && NoRepeats(codes) && DistinctKeys(keys) && ZeroLast(keys)
    ensures MergesWell(codes, keys, Appended(codes, keys))
  {
    hide Appended, DistinctKeys, Gapless, NoRepeats, ZeroLast;
    if 0 in keys {
      var i :| 0 <= i < |keys| && keys[i] == 0;
      ZeroDropped(codes, keys, i);
      SlotFreed(keys, i, 0);
      MergeKeys(codes, keys[i := NO_KEY]);
    } else {
      MergeKeys(codes, keys);
    }
  }

  /** A program can open a gap in some report exactly when it holds a key in a slot behind key code 0. */
  lemma GapFreeIff(keys: seq<Byte>)
    requires |keys| == SLOTS && DistinctKeys(keys)
    ensures ZeroLast(keys) <==> forall codes: seq<Byte> :: |codes| == SLOTS && Gapless(codes) ==>
            Gapless(Appended(codes, keys))
  {
    if ZeroLast(keys) {
      forall codes: seq<Byte> | |codes| == SLOTS && Gapless(codes)
        ensures Gapless(Appended(codes, keys))
      {
        MergesGapless(codes, keys);
      }
    } else {
      EmptyReportGap(keys);
    }
  }

  ghost predicate Orderly(codes: seq<Byte>) { |codes| == SLOTS && Gapless(codes) && NoRepeats(codes) }

  /**
   * A machine's keys go well into every orderly report exactly when it holds no key in a slot
   * behind key code 0: otherwise some report gets a gap, loses a key or repeats one.
   */
  lemma MergesWellIff(keys: seq<Byte>)
    requires |keys| == SLOTS && DistinctKeys(keys)
    ensures ZeroLast(keys) <==>
            forall codes: seq<Byte> :: Orderly(codes) ==> MergesWell(codes, keys, Appended(codes, keys))
  {
    hide MergesWell, DistinctKeys, ZeroLast, Appended;
    if ZeroLast(keys) {
      forall codes: seq<Byte> | Orderly(codes)
        ensures MergesWell(codes, keys, Appended(codes, keys))
      {
        MergesWellWhen(codes, keys);
      }
    } else {
      EmptyReportGap(keys);
      EmptyIsOrderly();
      assert !MergesWell(EMPTY_REPORT, keys, Appended(EMPTY_REPORT, keys)) by {
        WellIsGapless(EMPTY_REPORT, keys, Appended(EMPTY_REPORT, keys));
      }
    }
  }

  lemma WellIsGapless(codes: seq<Byte>, keys: seq<Byte>, r: seq<Byte>)
    ensures MergesWell(codes, keys, r) ==> Gapless(r)
  {
  }

  lemma EmptyIsOrderly()
    ensures Orderly(EMPTY_REPORT)
  {
  }

  lemma MergesGapless(codes: seq<Byte>, keys: seq<Byte>)
    requires Gapless(codes) && DistinctKeys(keys) && ZeroLast(keys)
    ensures Gapless(Appended(codes, keys))
  {
    var taken := codes[..UsedCodes(codes)];
    if 0 in keys {
      var i :| 0 <= i < |keys| && keys[i] == 0;
      NewKeysWithZero(keys, taken, i, |keys|);
      ZeroDropped(codes, keys, i);
      SlotFreed(keys, i, 0);
      NewKeysAre(keys[i := NO_KEY], taken, |keys|);
      GaplessIff(codes, keys[i := NO_KEY]);
    } else {
      NewKeysAre(keys, taken, |keys|);
      assert keys[..|keys|] == keys;
      GaplessIff(codes, keys);
    }
  }

  const EMPTY_REPORT: seq<Byte> := [0, 0, 0, 0, 0, 0]

  lemma EmptyReportGap(keys: seq<Byte>)
    requires |keys| == SLOTS && DistinctKeys(keys) && !ZeroLast(keys)
    ensures Gapless(EMPTY_REPORT) && !Gapless(Appended(EMPTY_REPORT, keys))
  {
    var i, j :| 0 <= i < j < |keys| && keys[i] == 0 && keys[j] != NO_KEY;
    assert keys[j] != 0;
    assert UsedCodes(EMPTY_REPORT) == 0;
    ZeroBefore(keys, i, j, |keys|);
    GaplessIff(EMPTY_REPORT, keys);
  }

  /** New keys come in slot order. */
  lemma {:induction false} ZeroBefore(keys: seq<Byte>, i: nat, j: nat, n: nat)
    requires DistinctKeys(keys) && i < j < n <= |keys| && keys[i] == 0 && keys[j] != NO_KEY && keys[j] != 0
    ensures !Gapless(NewKeys(keys, [], n))
  {
    hide DistinctKeys;
    var r := NewKeys(keys, [], n - 1);
    if n - 1 > j {
      ZeroBefore(keys, i, j, n - 1);
      var a, b :| 0 <= a < b < |r| && r[a] == 0 && r[b] != 0;
      assert NewKeys(keys, [], n)[a] == 0 && NewKeys(keys, [], n)[b] != 0;
    } else {
      ZeroIsNew(keys, i, n - 1);
      var a :| 0 <= a < |r| && r[a] == 0;
      assert NewKeys(keys, [], n)[a] == 0 && NewKeys(keys, [], n)[|r|] == keys[j];
    }
  }

  lemma ZeroIsNew(keys: seq<Byte>, i: nat, n: nat)
    requires DistinctKeys(keys) && i < n <= |keys| && keys[i] == 0
    ensures 0 in NewKeys(keys, [], n)
  {
    NewKeysAre(keys, [], n);
    assert keys[..n][i] == 0;
  }

  // ---- all machines ----

  /** The report codes after the machines below n have appended their keys; halted ones do not. */
  function MergeAll(codes: seq<Byte>, ms: seq<Machine>, n: nat): (r: seq<Byte>)
    requires n <= |ms|
    ensures |r| == |codes|
  {
    if n == 0 then codes
    else
      var before := MergeAll(codes, ms, n - 1);
      if Halted(ms[n - 1].status) then before else Appended(before, ms[n - 1].side.keys)
  }

  /** The machines whose keys may go into a report. */
  ghost predicate SideValid(m: Machine) {
    |m.side.keys| == SLOTS && DistinctKeys(m.side.keys) && ZeroLast(m.side.keys)
  }

  ghost predicate Sends(m: Machine, x: Byte) {
    !Halted(m.status) && x in m.side.keys && x != NO_KEY
  }

  /**
   * A report after all machines: codes already in it stay in front, there are no gaps, no code
   * appears twice, none appears that nobody sends, and a machine's key is missing only when all
   * six codes are in use.
   */
  ghost predicate AllWell(codes: seq<Byte>, ms: seq<Machine>, n: nat, r: seq<Byte>)
    requires n <= |ms|
  {
    && |r| == |codes|
    && codes[..UsedCodes(codes)] <= r && UsedCodes(codes) <= UsedCodes(r) && Gapless(r) && NoRepeats(r)
    && (forall x: Byte :: x in r && x != 0 ==> x in codes || exists i :: 0 <= i < n && Sends(ms[i], x))
    && (forall x: Byte, i :: 0 <= i < n && Sends(ms[i], x) && x != 0 ==> x in r || Full(r))
  }

  /** Whatever the number of running machines, the report is well merged. */
  lemma {:induction false} AllMerged(codes: seq<Byte>, ms: seq<Machine>, n: nat)
    requires n <= |ms| && Gapless(codes) && NoRepeats(codes)
    requires forall i :: 0 <= i < n && !Halted(ms[i].status) ==> SideValid(ms[i])
    ensures AllWell(codes, ms, n, MergeAll(codes, ms, n))
  {
    hide Appended, Gapless, NoRepeats;
    if n > 0 {
      var before, r, m := MergeAll(codes, ms, n - 1), MergeAll(codes, ms, n), ms[n - 1];
      AllMerged(codes, ms, n - 1);
      if !Halted(m.status) {
        MergesWellWhen(before, m.side.keys);
        PrefixKept(codes, before, r);
      }
    }
  }

  // ---- when it can go wrong ----

  /** Machines that hold the given side reports, running or not. */
  ghost predicate HoldSides(ms: seq<Machine>, sides: seq<Side>) {
    |ms| == |sides| && forall i :: 0 <= i < |ms| ==> ms[i].side == sides[i]
  }

  ghost predicate SideFits(s: Side) { |s.keys| == SLOTS && DistinctKeys(s.keys) }

  /** Machine k runs alone. */
  function OnlyRunning(sides: seq<Side>, k: nat): (ms: seq<Machine>)
    ensures HoldSides(ms, sides) && forall i :: 0 <= i < |ms| ==> (Halted(ms[i].status) <==> i != k)
  {
    seq(|sides|, i requires 0 <= i < |sides| =>
      Machine(if i == k then Running else Stopped, 0, [], [], 0, 0, 0, sides[i]))
  }

  lemma {:induction false} OneMerges(sides: seq<Side>, k: nat, n: nat)
    requires k < |sides| && n <= |sides|
    ensures MergeAll(EMPTY_REPORT, OnlyRunning(sides, k), n)
         == if n <= k then EMPTY_REPORT else Appended(EMPTY_REPORT, sides[k].keys)
  {
    hide Appended;
    if n > 0 { OneMerges(sides, k, n - 1); }
  }

  /**
   * The report is well merged for every choice of running machines and every orderly report
   * exactly when no machine holds a key in a slot behind key code 0.
   */
  lemma AllMergedIff(sides: seq<Side>)
    requires forall i :: 0 <= i < |sides| ==> SideFits(sides[i])
    ensures (forall i :: 0 <= i < |sides| ==> ZeroLast(sides[i].keys)) <==>
            forall codes, ms :: Orderly(codes) && HoldSides(ms, sides) ==>
              AllWell(codes, ms, |ms|, MergeAll(codes, ms, |ms|))
  {
    hide DistinctKeys, ZeroLast, Appended, AllWell, MergeAll;
    if k :| 0 <= k < |sides| && !ZeroLast(sides[k].keys) {
      var ms := OnlyRunning(sides, k);
      OneMerges(sides, k, |sides|);
      assert SideFits(sides[k]);
      EmptyReportGap(sides[k].keys);
      EmptyIsOrderly();
      AllWellIsGapless(EMPTY_REPORT, ms, MergeAll(EMPTY_REPORT, ms, |ms|));
    } else {
      forall codes, ms | Orderly(codes) && HoldSides(ms, sides)
        ensures AllWell(codes, ms, |ms|, MergeAll(codes, ms, |ms|))
      {
        forall i | 0 <= i < |ms|
          ensures SideValid(ms[i])
        {
          assert SideFits(sides[i]);
        }
        AllMerged(codes, ms, |ms|);
      }
    }
  }

  lemma AllWellIsGapless(codes: seq<Byte>, ms: seq<Machine>, r: seq<Byte>)
    ensures AllWell(codes, ms, |ms|, r) ==> Gapless(r)
  {
  }

  lemma NonzeroUsed(codes: seq<Byte>, i: nat)
    requires Gapless(codes) && i < |codes| && codes[i] != 0
    ensures i < UsedCodes(codes)
  {
  }

  /** A used prefix stays through a further merge, and so do its codes. */
  lemma PrefixKept(codes: seq<Byte>, before: seq<Byte>, r: seq<Byte>)
    requires |codes| == |before| == |r| && codes[..UsedCodes(codes)] <= before && UsedCodes(codes) <= UsedCodes(before)
    requires before[..UsedCodes(before)] <= r && UsedCodes(before) <= UsedCodes(r) && Gapless(before)
    ensures codes[..UsedCodes(codes)] <= r
    ensures forall x: Byte :: x in before && x != 0 ==> x in r
    ensures Full(before) ==> Full(r)
  {
    var k := UsedCodes(codes);
    assert codes[..k] == before[..k] == before[..UsedCodes(before)][..k] == r[..k];
    forall x: Byte | x in before && x != 0
      ensures x in r
    {
      var i :| 0 <= i < |before| && before[i] == x;
      NonzeroUsed(before, i);
      assert r[i] == before[..UsedCodes(before)][i];
    }
  }

  /** Two machines of which one holds 0 in front of another key: the second overwrites the first one's key. */
  lemma ZeroLosesKey() returns (a: seq<Byte>, b: seq<Byte>)
    ensures a == Pressed(Pressed(NO_KEYS, 0), 5).keys && b == Pressed(Pressed(NO_KEYS, 7), 8).keys
    ensures |a| == |b| == SLOTS && DistinctKeys(a) && DistinctKeys(b) && 5 in a
    ensures var r := Appended(Appended(EMPTY_REPORT, a), b);
            5 !in r && !Full(r) && Gapless(r)
  {
    hide Appended, Pressed;
    a, b := TwoKeys(0, 5), TwoKeys(7, 8);
    TwoPressed(0, 5);
    TwoPressed(7, 8);
    TwoKeysAppended(EMPTY_REPORT, 0, 5);
    TwoKeysAppended([0, 5, 0, 0, 0, 0], 7, 8);
    assert UsedCodes([7, 8, 0, 0, 0, 0]) == 2;
    assert a[1] == 5;
  }

  function TwoKeys(x: Byte, y: Byte): seq<Byte> { [x, y, NO_KEY, NO_KEY, NO_KEY, NO_KEY] }

  /** A machine that has pressed two keys. */
  lemma TwoPressed(x: Byte, y: Byte)
    requires x < LEFT_CONTROL && y < LEFT_CONTROL && x != y
    ensures Pressed(Pressed(NO_KEYS, x), y).keys == TwoKeys(x, y)
  {
    assert IndexOf(NO_KEYS.keys, NO_KEY) == 0;
    var one := NO_KEYS.keys[0 := x];
    assert Pressed(NO_KEYS, x).keys == one && one[1] == NO_KEY;
    assert IndexOf(one, NO_KEY) == 1;
  }

  lemma TwoKeysAppended(codes: seq<Byte>, x: Byte, y: Byte)
    requires |codes| == SLOTS && codes[0] == 0 && x != NO_KEY && y != NO_KEY
    ensures Appended(codes, TwoKeys(x, y)) == [x, y, codes[2], codes[3], codes[4], codes[5]]
  {
    var keys := TwoKeys(x, y);
    assert UsedCodes(codes) == 0 && codes[..0] == [];
    assert NewKeys(keys, [], 2) == [x, y] by { assert NewKeys(keys, [], 1) == NewKeys(keys, [], 0) + [x]; }
    NothingNew(keys, 2);
    var r := Merged(codes, [x, y]);
    assert r[0] == x && r[1] == y && r[2] == codes[2] && r[3] == codes[3] && r[4] == codes[4] && r[5] == codes[5];
  }

  lemma NothingNew(keys: seq<Byte>, n: nat)
    requires n <= |keys| == SLOTS && forall i :: n <= i < SLOTS ==> keys[i] == NO_KEY
    ensures NewKeys(keys, [], SLOTS) == NewKeys(keys, [], n)
    decreases SLOTS - n
  {
    if n < SLOTS { NothingNew(keys, n + 1); }
  }

  // ---- filling a report from all machines ----

  /** m is what v stands for, with or without any frames. */
  ghost predicate Shows(v: VirtualMachine.Vm, m: Machine)
    reads v, v.stack, v.report, v.report.keys
  {
    && ProgramFits(v.program) && v.Globals() <= v.stack.Length && v.report.keys.Length == SLOTS && v.View() == m
  }

  function Sent(m: Machine): Machine { if Halted(m.status) then m else ReportFilled(m) }

  method AppendOne(v: VirtualMachine.Vm, out: KeyboardReport, ghost m: Machine)
    requires Shows(v, m) && out.codes.Length == SLOTS && out.codes != v.report.keys && out.codes != v.stack
    modifies v`status, out`modifier, out.codes
    ensures Shows(v, Sent(m))
    ensures out.codes[..] == if Halted(m.status) then old(out.codes[..]) else Appended(old(out.codes[..]), m.side.keys)
  {
    hide Appended;
    if !Halted(v.status) {
      v.AppendTo(out);
    }
  }

  /** Every running machine in turn appends its keys and stops waiting for a report. */
  method AppendKeyboardReport(vms: seq<VirtualMachine.Vm>, out: KeyboardReport, ghost ms: seq<Machine>)
    requires |ms| == |vms| && forall i :: 0 <= i < |vms| ==> Shows(vms[i], ms[i])
    requires forall v :: v in vms ==> out.codes != v.report.keys && out.codes != v.stack
    requires (forall i, j :: 0 <= i < j < |vms| ==> vms[i] != vms[j]) && out.codes.Length == SLOTS
    modifies vms, out`modifier, out.codes
    ensures out.codes[..] == MergeAll(old(out.codes[..]), ms, |vms|)
    ensures forall i :: 0 <= i < |vms| ==> Shows(vms[i], Sent(ms[i]))
  {
    hide Appended, Shows, Sent;
    var i := 0;
    while i < |vms|
      invariant 0 <= i <= |vms|
      invariant forall j :: 0 <= j < |vms| ==> Shows(vms[j], if j < i then Sent(ms[j]) else ms[j])
      invariant out.codes[..] == MergeAll(old(out.codes[..]), ms, i)
    {
      AppendOne(vms[i], out, ms[i]);
      i := i + 1;
    }
  }
}
