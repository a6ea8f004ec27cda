/** Flash range planning: an address range becomes one sector range per bank, or an error. */
module Flash {
  import opened Arith
  import opened Bytes

  type Addr = a: int | 0 <= a < 0x1_0000_0000

  /** One bank: `known` stands for flash_id != FLASH_UNKNOWN, `start` has one entry per sector. */
  datatype Bank = Bank(known: bool, start: seq<Addr>, size: nat)

  /** What a sensible table says of a bank: sectors in ascending order, the last one not empty.
      A bank that was not recognised may have no sectors at all. */
  predicate WellFormed(b: Bank) {
    if b.start == [] then !b.known
    else
      && |b.start| <= 0x8000
      && (forall i :: 0 <= i < |b.start| - 1 ==> b.start[i] < b.start[i + 1])
      && b.start[|b.start| - 1] < b.start[0] + b.size <= M32
  }

  predicate AllWellFormed(banks: seq<Bank>) {
    forall i :: 0 <= i < |banks| ==> WellFormed(banks[i])
  }

  function BankEnd(b: Bank): Addr
    requires WellFormed(b) && b.start != []
  {
    StartsAscend(b, 0, |b.start| - 1);
    b.start[0] + b.size - 1
  }

  /** The last address of sector `i`. */
  function SectorEnd(b: Bank, i: nat): (e: Addr)
    requires WellFormed(b) && i < |b.start|
    ensures b.start[i] <= e <= BankEnd(b)
  {
    StartsAscend(b, i, |b.start| - 1);
    if i == |b.start| - 1 then BankEnd(b)
    else StartsAscend(b, i + 1, |b.start| - 1); b.start[i + 1] - 1
  }

  lemma {:induction false} StartsAscend(b: Bank, i: nat, j: nat)
    requires WellFormed(b) && i <= j < |b.start|
    ensures b.start[i] <= b.start[j] && (i < j ==> b.start[i] < b.start[j])
    decreases j - i
  {
    if i < j { StartsAscend(b, i, j - 1); }
  }

  lemma EndsAscend(b: Bank, i: nat, j: nat)
    requires WellFormed(b) && i < j < |b.start|
    ensures SectorEnd(b, i) < b.start[j] <= SectorEnd(b, j)
  {
    StartsAscend(b, i + 1, j);
  }

  // ---------------------------------------------------------------- the plan, as a function

  /** The sector that starts, or that ends, at an address. */
  function StartingAt(b: Bank, a: Addr, n: nat): (r: Option<nat>)
    requires n <= |b.start|
    ensures r.Some? ==> r.value < n && b.start[r.value] == a
    ensures r == None ==> forall i :: 0 <= i < n ==> b.start[i] != a
  {
    if n == 0 then None else if b.start[n - 1] == a then Some(n - 1) else StartingAt(b, a, n - 1)
  }

  function EndingAt(b: Bank, a: Addr, n: nat): (r: Option<nat>)
    requires WellFormed(b) && n <= |b.start|
    ensures r.Some? ==> r.value < n && SectorEnd(b, r.value) == a
    ensures r == None ==> forall i :: 0 <= i < n ==> SectorEnd(b, i) != a
  {
    if n == 0 then None else if SectorEnd(b, n - 1) == a then Some(n - 1) else EndingAt(b, a, n - 1)
  }

  /** The sectors picked in a bank. */
  datatype Pick = Nothing | Sectors(first: nat, last: nat)

  datatype Step = Fail | Next(pick: Pick, from: Addr)

  /** The next address, in 32 bits. */
  function After(a: Addr): Addr { (a + 1) % M32 }

  /** What one bank does with the range that is left, [from, last]; the address after a bank
      that ends at the top of the address space wraps to 0. */
  function BankStep(b: Bank, from: Addr, last: Addr): Step
    requires WellFormed(b)
  {
    if !b.known then Next(Nothing, from)
    else
      var n := |b.start|;
      var f, l := StartingAt(b, from, n), EndingAt(b, last, n);
      if f.Some? then
        var sl := if l.Some? then l else if last > BankEnd(b) then Some(n - 1) else None;
        if sl == None then Fail
        else if sl.value < f.value then Fail
        else Next(Sectors(f.value, sl.value), After(SectorEnd(b, sl.value)))
      else if b.start[0] <= from < BankEnd(b) then Fail
      else if l.Some? then Fail
      else Next(Nothing, from)
  }

  function Plan(banks: seq<Bank>, from: Addr, last: Addr): (r: Option<seq<Pick>>)
    requires AllWellFormed(banks)
    ensures r.Some? ==> |r.value| == |banks|
  {
    if banks == [] then Some([])
    else if from > last then Some(seq(|banks|, _ => Nothing))
    else
      var s := BankStep(banks[0], from, last);
      if s == Fail then None
      else
        var rest := Plan(banks[1..], s.from, last);
        if rest == None then None else Some([s.pick] + rest.value)
  }

  function Count(picks: seq<Pick>): nat
    requires forall i :: 0 <= i < |picks| && picks[i].Sectors? ==> picks[i].first <= picks[i].last
  {
    if picks == [] then 0
    else (if picks[0].Sectors? then picks[0].last - picks[0].first + 1 else 0) + Count(picks[1..])
  }

  // ---------------------------------------------------------------- what a plan guarantees

  /** Sector `i` of bank `k` is picked. */
  predicate Picked(picks: seq<Pick>, k: nat, i: nat) {
    k < |picks| && picks[k].Sectors? && picks[k].first <= i <= picks[k].last
  }

  predicate Contains(b: Bank, i: nat, a: int)
    requires WellFormed(b) && i < |b.start|
  {
    b.start[i] <= a <= SectorEnd(b, i)
  }

  /** Address `a` lies in a picked sector. */
  ghost predicate Covered(banks: seq<Bank>, picks: seq<Pick>, a: int)
    requires AllWellFormed(banks)
  {
    exists k: nat, i: nat :: Picked(picks, k, i) && k < |banks| && i < |banks[k].start| && Contains(banks[k], i, a)
  }

  /** Every pick names sectors of its bank, and that bank is known. */
  ghost predicate Names(banks: seq<Bank>, picks: seq<Pick>) {
    && |picks| == |banks|
    && forall k :: 0 <= k < |picks| && picks[k].Sectors? ==>
         banks[k].known && picks[k].first <= picks[k].last < |banks[k].start|
  }

  /** No picked sector reaches outside the bytes from `from` up to, not including, `stop`. */
  ghost predicate Within(banks: seq<Bank>, picks: seq<Pick>, from: int, stop: int)
    requires AllWellFormed(banks)
  {
    forall k: nat, i: nat :: Picked(picks, k, i) ==>
      k < |banks| && i < |banks[k].start| && from <= banks[k].start[i] && SectorEnd(banks[k], i) < stop
  }

  /** They leave none of those bytes out. */
  ghost predicate Covers(banks: seq<Bank>, picks: seq<Pick>, from: int, stop: int)
    requires AllWellFormed(banks)
  {
    forall a :: from <= a < stop ==> Covered(banks, picks, a)
  }

  /** The picked sectors are exactly the bytes from `from` up to, not including, `stop`. */
  ghost predicate Tiles(banks: seq<Bank>, picks: seq<Pick>, from: int, stop: int)
    requires AllWellFormed(banks)
  {
    Names(banks, picks) && Within(banks, picks, from, stop) && Covers(banks, picks, from, stop)
  }

  /** The bank ends at the top of the address space, or starts at its bottom. */
  predicate AtTop(b: Bank)
    requires WellFormed(b)
  {
    b.known && BankEnd(b) == M32 - 1
  }

  predicate AtBottom(b: Bank)
    requires WellFormed(b)
  {
    b.known && b.start[0] == 0
  }

  /** A bank that ends at the top comes before one that starts at the bottom. */
  ghost predicate TopBeforeBottom(banks: seq<Bank>)
    requires AllWellFormed(banks)
  {
    exists j: nat, k: nat :: j < k < |banks| && AtTop(banks[j]) && AtBottom(banks[k])
  }

  /** `a` is the last byte of a sector of a known bank. */
  ghost predicate EndsSector(banks: seq<Bank>, a: int)
    requires AllWellFormed(banks)
  {
    exists k: nat, i: nat :: k < |banks| && banks[k].known && i < |banks[k].start| && SectorEnd(banks[k], i) == a
  }

  /** Consecutive sectors leave no gap. */
  lemma {:induction false} SectorRun(b: Bank, f: nat, l: nat, a: int) returns (i: nat)
    requires WellFormed(b) && f <= l < |b.start| && b.start[f] <= a <= SectorEnd(b, l)
    ensures f <= i <= l && Contains(b, i, a)
    decreases l - f
  {
    if a >= b.start[l] {
      i := l;
    } else {
      i := SectorRun(b, f, l - 1, a);
    }
  }

  lemma PickedShift(pick: Pick, rest: seq<Pick>, k: nat, i: nat)
    ensures k > 0 ==> (Picked([pick] + rest, k, i) <==> Picked(rest, k - 1, i))
    ensures Picked([pick] + rest, 0, i) <==> pick.Sectors? && pick.first <= i <= pick.last
  {
  }

  /** A bank that picks nothing changes neither what is covered nor what is kept. */
  lemma SkipBank(banks: seq<Bank>, rest: seq<Pick>, from: int, stop: int)
    requires banks != [] && AllWellFormed(banks) && Covers(banks[1..], rest, from, stop)
    ensures Covers(banks, [Nothing] + rest, from, stop)
    ensures Within(banks[1..], rest, from, stop) ==> Within(banks, [Nothing] + rest, from, stop)
  {
    var picks := [Nothing] + rest;
    if Within(banks[1..], rest, from, stop) {
      forall k: nat, i: nat | Picked(picks, k, i)
        ensures k < |banks| && i < |banks[k].start| && from <= banks[k].start[i] && SectorEnd(banks[k], i) < stop
      {
        PickedShift(Nothing, rest, k, i);
        assert Picked(rest, k - 1, i) && banks[1..][k - 1] == banks[k];
      }
    }
    forall a | from <= a < stop ensures Covered(banks, picks, a) { CoveredLater(banks, Nothing, rest, a); }
  }

  lemma CoveredLater(banks: seq<Bank>, pick: Pick, rest: seq<Pick>, a: int)
    requires banks != [] && AllWellFormed(banks) && Covered(banks[1..], rest, a)
    ensures Covered(banks, [pick] + rest, a)
  {
    var k: nat, i: nat :| Picked(rest, k, i) && k < |banks[1..]| && i < |banks[1..][k].start| && Contains(banks[1..][k], i, a);
    PickedShift(pick, rest, k + 1, i);
    assert Picked([pick] + rest, k + 1, i) && banks[k + 1] == banks[1..][k];
  }

  /** Sectors that end where the others go on extend them to the front. */
  lemma TakeCovers(banks: seq<Bank>, f: nat, l: nat, rest: seq<Pick>, stop: int)
    requires banks != [] && AllWellFormed(banks) && banks[0].known && f <= l < |banks[0].start|
    requires Covers(banks[1..], rest, SectorEnd(banks[0], l) + 1, stop)
    ensures Covers(banks, [Sectors(f, l)] + rest, banks[0].start[f], stop)
  {
    var b, pick := banks[0], Sectors(f, l);
    forall a | b.start[f] <= a < stop ensures Covered(banks, [pick] + rest, a) {
      if a <= SectorEnd(b, l) {
        var i := SectorRun(b, f, l, a);
        PickedShift(pick, rest, 0, i);
        assert Picked([pick] + rest, 0, i) && Contains(banks[0], i, a);
      } else {
        CoveredLater(banks, pick, rest, a);
      }
    }
  }

  lemma TakeWithin(banks: seq<Bank>, f: nat, l: nat, rest: seq<Pick>, from: int, stop: int)
    requires banks != [] && AllWellFormed(banks) && banks[0].known && f <= l < |banks[0].start|
    requires from <= banks[0].start[f] && SectorEnd(banks[0], l) < stop && Within(banks[1..], rest, from, stop)
    ensures Within(banks, [Sectors(f, l)] + rest, from, stop)
  {
    var b, pick := banks[0], Sectors(f, l);
    var picks := [pick] + rest;
    forall k: nat, i: nat | Picked(picks, k, i)
      ensures k < |banks| && i < |banks[k].start| && from <= banks[k].start[i] && SectorEnd(banks[k], i) < stop
    {
      PickedShift(pick, rest, k, i);
      if k == 0 {
        StartsAscend(b, f, i);
        if i < l { EndsAscend(b, i, l); }
      } else {
        assert Picked(rest, k - 1, i) && banks[1..][k - 1] == banks[k];
      }
    }
  }

  lemma WithinMore(banks: seq<Bank>, picks: seq<Pick>, from: int, from': int, stop: int)
    requires AllWellFormed(banks) && from <= from' && Within(banks, picks, from', stop)
    ensures Within(banks, picks, from, stop)
  {
  }

  lemma NothingTiles(banks: seq<Bank>, from: int, stop: int)
    requires AllWellFormed(banks)
    ensures Names(banks, seq(|banks|, _ => Nothing)) && Within(banks, seq(|banks|, _ => Nothing), from, stop)
    ensures Covers(banks, seq(|banks|, _ => Nothing), from, from)
  {
  }

  /** One bank that does not fail: it picks nothing, or sectors from the start of the range up
      to its end or the bank's; the next address wraps to 0 after the top. */
  lemma StepKeepsRange(b: Bank, from: Addr, last: Addr)
    requires WellFormed(b) && from <= last && BankStep(b, from, last) != Fail
    ensures var s := BankStep(b, from, last);
            && (s.pick == Nothing ==> s.from == from)
            && (s.pick.Sectors? ==>
                  && b.known && s.pick.first <= s.pick.last < |b.start| && b.start[s.pick.first] == from
                  && SectorEnd(b, s.pick.last) <= last && s.from == After(SectorEnd(b, s.pick.last))
                  && (SectorEnd(b, s.pick.last) == last || s.pick.last == |b.start| - 1))
  {
    var n := |b.start|;
    var f, l := StartingAt(b, from, n), EndingAt(b, last, n);
    if b.known && f.Some? && l.Some? && l.value >= f.value {
      StartsAscend(b, f.value, l.value);
    }
    if b.known && f.Some? {
      StartsAscend(b, f.value, n - 1);
    }
  }

  lemma AfterIs(a: Addr)
    ensures After(a) == if a == M32 - 1 then 0 else a + 1
  {
  }

  /** Once a bank ends a sector at `last`, it finishes the range or fails the plan. */
  lemma StepReachesLast(b: Bank, from: Addr, last: Addr, i: nat)
    requires WellFormed(b) && b.known && from <= last && BankStep(b, from, last) != Fail
    requires i < |b.start| && SectorEnd(b, i) == last
    ensures var s := BankStep(b, from, last); s.pick.Sectors? && SectorEnd(b, s.pick.last) == last
  {
    hide StartingAt, SectorEnd, After;
    assert EndingAt(b, last, |b.start|).Some?;
  }

  lemma EndsHereOrLater(banks: seq<Bank>, from: Addr, last: Addr)
    requires banks != [] && AllWellFormed(banks) && from <= last && EndsSector(banks, last)
    requires BankStep(banks[0], from, last) != Fail
    ensures var s := BankStep(banks[0], from, last);
            EndsSector(banks[1..], last) || (s.pick.Sectors? && s.pick.last < |banks[0].start| && SectorEnd(banks[0], s.pick.last) == last)
  {
    hide BankStep;
    var k: nat, i: nat :| k < |banks| && banks[k].known && i < |banks[k].start| && SectorEnd(banks[k], i) == last;
    if k == 0 {
      StepReachesLast(banks[0], from, last, i);
      StepKeepsRange(banks[0], from, last);
    } else {
      assert banks[1..][k - 1] == banks[k];
    }
  }

  lemma NoSectorEnds(last: int)
    ensures !EndsSector([], last)
  {
  }

  lemma PlanUnfolds(banks: seq<Bank>, from: Addr, last: Addr)
    requires AllWellFormed(banks) && Plan(banks, from, last).Some?
    ensures banks == [] || from > last ==> Plan(banks, from, last).value == seq(|banks|, _ => Nothing)
    ensures banks != [] && from <= last ==>
              var s := BankStep(banks[0], from, last);
              && s != Fail && Plan(banks[1..], s.from, last).Some?
              && Plan(banks, from, last).value == [s.pick] + Plan(banks[1..], s.from, last).value
  {
    hide BankStep;
  }

  /** A plan names sectors of known banks only. */
  lemma {:induction false} PlanNames(banks: seq<Bank>, from: Addr, last: Addr)
    requires AllWellFormed(banks) && Plan(banks, from, last).Some?
    ensures Names(banks, Plan(banks, from, last).value)
    decreases |banks|
  {
    hide BankStep, After;
    PlanUnfolds(banks, from, last);
    if banks == [] || from > last {
      NothingTiles(banks, from, from);
    } else {
      var s := BankStep(banks[0], from, last);
      PlanNames(banks[1..], s.from, last);
      StepKeepsRange(banks[0], from, last);
    }
  }

  lemma TailTopBeforeBottom(banks: seq<Bank>)
    requires banks != [] && AllWellFormed(banks)
    ensures TopBeforeBottom(banks[1..]) ==> TopBeforeBottom(banks)
    ensures AtTop(banks[0]) && SomeAtBottom(banks[1..]) ==> TopBeforeBottom(banks)
    ensures TopBeforeBottom(banks) ==> TopBeforeBottom(banks[1..]) || (AtTop(banks[0]) && SomeAtBottom(banks[1..]))
  {
    hide AtTop, AtBottom, WellFormed;
    var tail := banks[1..];
    assert forall k :: 0 <= k < |tail| ==> tail[k] == banks[k + 1];
    if TopBeforeBottom(tail) {
      var j: nat, k: nat :| j < k < |tail| && AtTop(tail[j]) && AtBottom(tail[k]);
      assert AtTop(banks[j + 1]) && AtBottom(banks[k + 1]);
    }
    if SomeAtBottom(tail) {
      var k: nat :| k < |tail| && AtBottom(tail[k]);
      assert AtBottom(banks[k + 1]);
    }
    if TopBeforeBottom(banks) {
      var j: nat, k: nat :| j < k < |banks| && AtTop(banks[j]) && AtBottom(banks[k]);
      assert AtBottom(tail[k - 1]);
      if j > 0 { assert AtTop(tail[j - 1]); }
    }
  }

  ghost predicate SomeAtBottom(banks: seq<Bank>)
    requires AllWellFormed(banks)
  {
    exists k: nat :: k < |banks| && AtBottom(banks[k])
  }

  /** After a wrap the plan goes on at address 0: it picks nothing more unless a bank starts there,
      and then it picks the first sector of such a bank. */
  lemma {:induction false} PlanFromZero(banks: seq<Bank>)
    requires AllWellFormed(banks) && Plan(banks, 0, M32 - 1).Some?
    ensures !SomeAtBottom(banks) ==> Plan(banks, 0, M32 - 1).value == seq(|banks|, _ => Nothing)
    ensures SomeAtBottom(banks) ==> PicksZero(banks, Plan(banks, 0, M32 - 1).value)
    decreases |banks|
  {
    hide BankStep, SectorEnd, BankEnd, SomeAtBottom;
    PlanUnfolds(banks, 0, M32 - 1);
    if banks == [] {
      NoBottom();
    } else {
      var b, tail := banks[0], banks[1..];
      var s := BankStep(b, 0, M32 - 1);
      var picks := Plan(banks, 0, M32 - 1).value;
      ZeroStep(b);
      assert forall k :: 0 <= k < |tail| ==> tail[k] == banks[k + 1];
      BottomHereOrLater(banks);
      if AtBottom(b) {
        assert Picked(picks, 0, 0);
      } else {
        PlanFromZero(tail);
        if SomeAtBottom(tail) {
          var k: nat :| k < |tail| && Picked(Plan(tail, 0, M32 - 1).value, k, 0) && AtBottom(tail[k]);
          assert Picked(picks, k + 1, 0) && AtBottom(banks[k + 1]);
        }
      }
    }
  }

  lemma NoBottom()
    ensures !SomeAtBottom([])
  {
  }

  lemma BottomHereOrLater(banks: seq<Bank>)
    requires banks != [] && AllWellFormed(banks)
    ensures SomeAtBottom(banks) <==> AtBottom(banks[0]) || SomeAtBottom(banks[1..])
  {
    hide AtBottom, WellFormed;
    var tail := banks[1..];
    assert forall k :: 0 <= k < |tail| ==> tail[k] == banks[k + 1];
    if k: nat :| k < |tail| && AtBottom(tail[k]) { assert AtBottom(banks[k + 1]); }
    if k: nat :| k < |banks| && AtBottom(banks[k]) {
      if k > 0 { assert AtBottom(tail[k - 1]); }
    }
  }

  ghost predicate PicksZero(banks: seq<Bank>, picks: seq<Pick>)
    requires AllWellFormed(banks)
  {
    exists k: nat :: k < |banks| && Picked(picks, k, 0) && AtBottom(banks[k])
  }

  lemma ZeroStep(b: Bank)
    requires WellFormed(b) && BankStep(b, 0, M32 - 1) != Fail
    ensures var s := BankStep(b, 0, M32 - 1);
            if AtBottom(b) then s.pick.Sectors? && s.pick.first == 0 else s == Next(Nothing, 0)
  {
    if b.known {
      var f := StartingAt(b, 0, |b.start|);
      if f.Some? { StartsAscend(b, 0, f.value); }
    }
  }

  /** Every plan picks a gap-free run of sectors that starts at `from` and, when `last` ends a
      known sector, reaches it. It picks nothing else unless it wraps at the top and finds a
      bank at the bottom. */
  lemma {:induction false} PlanRuns(banks: seq<Bank>, from: Addr, last: Addr) returns (stop: int)
    requires AllWellFormed(banks) && Plan(banks, from, last).Some?
    ensures Covers(banks, Plan(banks, from, last).value, from, stop)
    ensures last < M32 - 1 || !TopBeforeBottom(banks) ==> Within(banks, Plan(banks, from, last).value, from, stop)
    ensures if from > last then stop == from else from <= stop <= last + 1
    ensures from <= last && EndsSector(banks, last) ==> stop == last + 1
    decreases |banks|
  {
    hide Covers, Within, BankStep, SectorEnd, EndsSector, Covered, TopBeforeBottom, After, SomeAtBottom;
    PlanUnfolds(banks, from, last);
    if banks == [] || from > last {
      stop := from;
      NothingTiles(banks, from, from);
      if banks == [] { NoSectorEnds(last); }
    } else {
      var b, tail := banks[0], banks[1..];
      var s := BankStep(b, from, last);
      var rest := Plan(tail, s.from, last).value;
      StepKeepsRange(b, from, last);
      TailTopBeforeBottom(banks);
      if EndsSector(banks, last) { EndsHereOrLater(banks, from, last); }
      if s.pick == Nothing {
        stop := PlanRuns(tail, from, last);
        SkipBank(banks, rest, from, stop);
      } else {
        var f, l := s.pick.first, s.pick.last;
        AfterIs(SectorEnd(b, l));
        if SectorEnd(b, l) < M32 - 1 {
          stop := PlanRuns(tail, s.from, last);
          TakeCovers(banks, f, l, rest, stop);
          StartBelow(b, f, l);
          if last < M32 - 1 || !TopBeforeBottom(banks) {
            WithinMore(tail, rest, from, s.from, stop);
            TakeWithin(banks, f, l, rest, from, stop);
          }
        } else {
          stop := M32;
          WrapRuns(banks, from, f, l);
        }
      }
    }
  }

  lemma StartBelow(b: Bank, f: nat, l: nat)
    requires WellFormed(b) && f <= l < |b.start|
    ensures b.start[f] <= SectorEnd(b, l)
  {
    StartsAscend(b, f, l);
  }

  /** The step that wraps. */
  lemma WrapRuns(banks: seq<Bank>, from: Addr, f: nat, l: nat)
    requires banks != [] && AllWellFormed(banks) && banks[0].known && f <= l < |banks[0].start|
    requires banks[0].start[f] == from && SectorEnd(banks[0], l) == M32 - 1 && Plan(banks[1..], 0, M32 - 1).Some?
    ensures var picks := [Sectors(f, l)] + Plan(banks[1..], 0, M32 - 1).value;
            && Covers(banks, picks, from, M32)
            && (!TopBeforeBottom(banks) ==> Within(banks, picks, from, M32))
            && (TopBeforeBottom(banks) ==> PicksZero(banks, picks))
  {
    hide Within, Covered, SectorEnd, TopBeforeBottom, SomeAtBottom, AtTop;
    var tail, rest := banks[1..], Plan(banks[1..], 0, M32 - 1).value;
    PlanFromZero(tail);
    TailTopBeforeBottom(banks);
    TopEnds(banks[0], l);
    assert Covers(tail, rest, M32, M32);
    TakeCovers(banks, f, l, rest, M32);
    if SomeAtBottom(tail) {
      var k: nat :| k < |tail| && Picked(rest, k, 0) && AtBottom(tail[k]);
      PickedShift(Sectors(f, l), rest, k + 1, 0);
      assert banks[k + 1] == tail[k];
    } else {
      NothingTiles(tail, from, M32);
      TakeWithin(banks, f, l, rest, from, M32);
      if TopBeforeBottom(tail) { TopBeforeIsBottom(tail); }
    }
  }

  lemma TopBeforeIsBottom(banks: seq<Bank>)
    requires AllWellFormed(banks) && TopBeforeBottom(banks)
    ensures SomeAtBottom(banks)
  {
  }

  lemma TopEnds(b: Bank, l: nat)
    requires WellFormed(b) && b.known && l < |b.start| && SectorEnd(b, l) == M32 - 1
    ensures AtTop(b)
  {
  }

  /** Tiling, for every bank order and every table: a plan picks a gap-free run of sectors
      that starts at `from` and stays within the range; when `last` ends a known sector it
      picks exactly the range. The one exception is a range that ends at the top of the
      address space, in a table that lists a bank there before one at the bottom. */
  lemma PlanTiles(banks: seq<Bank>, from: Addr, last: Addr) returns (stop: int)
    requires AllWellFormed(banks) && Plan(banks, from, last).Some?
    requires last < M32 - 1 || from == 0 || !TopBeforeBottom(banks)
    ensures Tiles(banks, Plan(banks, from, last).value, from, stop)
    ensures if from > last then stop == from else from <= stop <= last + 1
    ensures from <= last && EndsSector(banks, last) ==> stop == last + 1
  {
    hide Plan, Covers, Within, SectorEnd, BankEnd;
    PlanNames(banks, from, last);
    stop := PlanRuns(banks, from, last);
    if last == M32 - 1 && TopBeforeBottom(banks) {
      TopEndsSector(banks);
      NamesWithin(banks, Plan(banks, from, last).value);
    }
  }

  lemma TopEndsSector(banks: seq<Bank>)
    requires AllWellFormed(banks) && TopBeforeBottom(banks)
    ensures EndsSector(banks, M32 - 1)
  {
    var j: nat, k: nat :| j < k < |banks| && AtTop(banks[j]) && AtBottom(banks[k]);
    assert SectorEnd(banks[j], |banks[j].start| - 1) == M32 - 1;
  }

  lemma NamesWithin(banks: seq<Bank>, picks: seq<Pick>)
    requires AllWellFormed(banks) && Names(banks, picks)
    ensures Within(banks, picks, 0, M32)
  {
    hide SectorEnd;
  }

  /** Exactly when a plan stays inside its range: always, but for a range that ends at the top
      of the address space and does not start at its bottom, in a table that lists a bank at
      the top before one at the bottom. Then the bank at the bottom is picked as well. */
  lemma PlanInsideIff(banks: seq<Bank>, from: Addr, last: Addr)
    requires AllWellFormed(banks) && from <= last && Plan(banks, from, last).Some?
    ensures Within(banks, Plan(banks, from, last).value, from, last + 1)
            <==> last < M32 - 1 || from == 0 || !TopBeforeBottom(banks)
  {
    hide Plan, SectorEnd, TopBeforeBottom, Covers, Names;
    var picks := Plan(banks, from, last).value;
    if last < M32 - 1 || from == 0 || !TopBeforeBottom(banks) {
      var stop := PlanTiles(banks, from, last);
    } else {
      WrapPicksZero(banks, from);
      var k: nat :| k < |banks| && Picked(picks, k, 0) && AtBottom(banks[k]);
      assert banks[k].start[0] < from;
    }
  }

  lemma {:induction false} WrapPicksZero(banks: seq<Bank>, from: Addr)
    requires AllWellFormed(banks) && Plan(banks, from, M32 - 1).Some? && TopBeforeBottom(banks)
    ensures PicksZero(banks, Plan(banks, from, M32 - 1).value)
    decreases |banks|
  {
    hide BankStep, SectorEnd, TopBeforeBottom, After, SomeAtBottom, BankEnd;
    PlanUnfolds(banks, from, M32 - 1);
    if banks == [] {
      NoTop();
    } else {
      var b, tail := banks[0], banks[1..];
      var s := BankStep(b, from, M32 - 1);
      var picks := Plan(banks, from, M32 - 1).value;
      StepKeepsRange(b, from, M32 - 1);
      TailTopBeforeBottom(banks);
      if AtTop(b) { TopStep(b, from); }
      if s.pick.Sectors? && SectorEnd(b, s.pick.last) == M32 - 1 {
        AfterIs(M32 - 1);
        WrapRuns(banks, from, s.pick.first, s.pick.last);
      } else {
        WrapPicksZero(tail, s.from);
        var k: nat :| k < |tail| && Picked(Plan(tail, s.from, M32 - 1).value, k, 0) && AtBottom(tail[k]);
        PickedShift(s.pick, Plan(tail, s.from, M32 - 1).value, k + 1, 0);
        assert banks[k + 1] == tail[k];
      }
    }
  }

  lemma NoTop()
    ensures !TopBeforeBottom([])
  {
  }

  lemma TopStep(b: Bank, from: Addr)
    requires WellFormed(b) && AtTop(b) && BankStep(b, from, M32 - 1) != Fail
    ensures var s := BankStep(b, from, M32 - 1);
            s.pick.Sectors? && s.pick.last < |b.start| && SectorEnd(b, s.pick.last) == M32 - 1
  {
    assert SectorEnd(b, |b.start| - 1) == M32 - 1;
    StepReachesLast(b, from, M32 - 1, |b.start| - 1);
    StepKeepsRange(b, from, M32 - 1);
  }

  /** The exception exists: erasing all of a bank at the top goes on at address 0 and also
      picks the bank that lies there, far outside the range. */
  lemma TopBankWraps()
    ensures var banks := [Bank(true, [0xFFFF_0000], 0x1_0000), Bank(true, [0], 0x1000)];
            && AllWellFormed(banks)
            && Plan(banks, 0xFFFF_0000, 0xFFFF_FFFF) == Some([Sectors(0, 0), Sectors(0, 0)])
  {
    var top, bottom := Bank(true, [0xFFFF_0000], 0x1_0000), Bank(true, [0], 0x1000);
    var banks := [top, bottom];
    assert banks[1..] == [bottom] && [bottom][1..] == [];
    assert StartingAt(top, 0xFFFF_0000, 1) == Some(0) && EndingAt(top, 0xFFFF_FFFF, 1) == Some(0);
    assert BankStep(top, 0xFFFF_0000, 0xFFFF_FFFF) == Next(Sectors(0, 0), 0);
    assert StartingAt(bottom, 0, 1) == Some(0) && SectorEnd(bottom, 0) == 0xFFF;
    assert BankStep(bottom, 0, 0xFFFF_FFFF) == Next(Sectors(0, 0), 0x1000);
    assert Plan([], 0x1000, 0xFFFF_FFFF) == Some([]) && [Sectors(0, 0)] + [] == [Sectors(0, 0)];
    assert Plan([bottom], 0, 0xFFFF_FFFF) == Some([Sectors(0, 0)]);
    assert [Sectors(0, 0)] + [Sectors(0, 0)] == [Sectors(0, 0), Sectors(0, 0)];
  }

  // ---------------------------------------------------------------- the loops

  function AsInt(o: Option<nat>): int { if o == None then -1 else o.value }

  /** The sector loop of one bank. */
  method ScanBank(b: Bank, from: Addr, last: Addr) returns (f: int, l: int)
    requires WellFormed(b) && from <= last
    ensures f == AsInt(StartingAt(b, from, |b.start|)) && l == AsInt(EndingAt(b, last, |b.start|))
  {
    f, l := -1, -1;
    var sect := 0;
    while sect < |b.start|
      invariant 0 <= sect <= |b.start|
      invariant f == AsInt(StartingAt(b, from, sect)) && l == AsInt(EndingAt(b, last, sect))
    {
      var end := SectorEnd(b, sect);
      if from <= end && b.start[sect] <= last {
        if from == b.start[sect] {
          f := sect;
        }
        if last == end {
          l := sect;
        }
      }
      sect := sect + 1;
    }
  }

  /** One round of the bank loop. */
  method DoBank(b: Bank, from: Addr, last: Addr) returns (ok: bool, f: int, l: int, next: Addr)
    requires WellFormed(b) && from <= last
    ensures ok <==> BankStep(b, from, last) != Fail
    ensures ok ==> var s := BankStep(b, from, last); Shows(f, l, s.pick) && next == s.from
  {
    f, l, next := -1, -1, from;
    if !b.known {
      return true, f, l, next;
    }
    f, l := ScanBank(b, from, last);
    var bEnd, sEnd := BankEnd(b), |b.start| - 1;
    if f >= 0 {
      if l < 0 {
        if last > bEnd {
          l := sEnd;
        } else {
          return false, f, l, next;           // end address not on sector boundary
        }
      }
      if l < f {
        return false, f, l, next;             // end sector precedes start sector
      }
      next := if l == sEnd then After(bEnd) else b.start[l + 1];
      return true, f, l, next;
    } else if b.start[0] <= from && from < bEnd {
      return false, f, l, next;               // start address not on sector boundary
    } else if l >= 0 {
      return false, f, l, next;               // banks mapped in reverse order
    }
    return true, f, l, next;
  }

  predicate Shows(f: int, l: int, pick: Pick) {
    if pick.Nothing? then f == -1 && l == -1 else f == pick.first && l == pick.last
  }

  function Prefixed(done: seq<Pick>, rest: Option<seq<Pick>>): Option<seq<Pick>> {
    if rest == None then None else Some(done + rest.value)
  }

  predicate Ordered(picks: seq<Pick>) {
    forall i :: 0 <= i < |picks| && picks[i].Sectors? ==> picks[i].first <= picks[i].last
  }

  lemma {:induction false} CountSnoc(picks: seq<Pick>, p: Pick)
    requires Ordered(picks) && (p.Sectors? ==> p.first <= p.last)
    ensures Ordered(picks + [p])
    ensures Count(picks + [p]) == Count(picks) + if p.Sectors? then p.last - p.first + 1 else 0
    decreases |picks|
  {
    if picks == [] {
      assert [] + [p] == [p] && [p][1..] == [];
    } else {
      assert (picks + [p])[1..] == picks[1..] + [p];
      CountSnoc(picks[1..], p);
    }
  }

  lemma {:induction false} CountNothing(picks: seq<Pick>, n: nat)
    requires Ordered(picks)
    ensures Ordered(picks + seq(n, _ => Nothing)) && Count(picks + seq(n, _ => Nothing)) == Count(picks)
    decreases n
  {
    if n == 0 {
      assert picks + seq(n, _ => Nothing) == picks;
    } else {
      CountNothing(picks, n - 1);
      CountSnoc(picks + seq(n - 1, _ => Nothing), Nothing);
      assert picks + seq(n, _ => Nothing) == picks + seq(n - 1, _ => Nothing) + [Nothing];
    }
  }

  /** flash_fill_sect_ranges: fails exactly when there is no plan; otherwise the arrays hold
      the plan and the count is its number of sectors. */
  method FillSectRanges(banks: seq<Bank>, first: Addr, last: Addr, sFirst: array<int>, sLast: array<int>)
    returns (rcode: int, sCount: int)
    requires AllWellFormed(banks) && sFirst != sLast && sFirst.Length == sLast.Length == |banks|
    modifies sFirst, sLast
    ensures rcode == 0 || rcode == 1
    ensures rcode == 0 <==> Plan(banks, first, last).Some?
    ensures rcode == 0 ==>
              var picks := Plan(banks, first, last).value;
              && Ordered(picks) && sCount == Count(picks)
              && forall k :: 0 <= k < |banks| ==> Shows(sFirst[k], sLast[k], picks[k])
  {
    hide BankStep, Count, WellFormed;
    sCount := 0;
    var bank := 0;
    while bank < |banks|
      invariant 0 <= bank <= |banks|
      invariant forall k :: 0 <= k < bank ==> sFirst[k] == -1 && sLast[k] == -1
    {
      sFirst[bank], sLast[bank] := -1, -1;
      bank := bank + 1;
    }
    bank := 0;
    var from: Addr := first;
    ghost var done: seq<Pick> := [];
    CountEmpty();
    assert banks[0..] == banks;
    PrefixedNone(Plan(banks, first, last));
    while bank < |banks| && from <= last
      invariant 0 <= bank <= |banks| && |done| == bank && Ordered(done) && sCount == Count(done)
      invariant Plan(banks, first, last) == Prefixed(done, Plan(banks[bank..], from, last))
      invariant forall k :: 0 <= k < bank ==> Shows(sFirst[k], sLast[k], done[k])
      invariant forall k :: bank <= k < |banks| ==> sFirst[k] == -1 && sLast[k] == -1
    {
      ghost var s := BankStep(banks[bank], from, last);
      PlanStep(banks, bank, from, last, done);
      var ok, f, l, next := DoBank(banks[bank], from, last);
      sFirst[bank], sLast[bank] := f, l;
      if !ok {
        return 1, sCount;
      }
      StepOrdered(banks[bank], from, last);
      CountSnoc(done, s.pick);
      if f >= 0 {
        sCount := sCount + (l - f + 1);
      }
      done := done + [s.pick];
      from := next;
      bank := bank + 1;
    }
    PlanEnd(banks[bank..], from, last);
    CountNothing(done, |banks| - bank);
    rcode := 0;
  }

  lemma CountEmpty()
    ensures Count([]) == 0
  {
  }

  lemma PrefixedNone(o: Option<seq<Pick>>)
    ensures Prefixed([], o) == o
  {
    if o.Some? { assert [] + o.value == o.value; }
  }

  lemma PlanEnd(banks: seq<Bank>, from: Addr, last: Addr)
    requires AllWellFormed(banks) && (banks == [] || from > last)
    ensures Plan(banks, from, last) == Some(seq(|banks|, _ => Nothing))
  {
    if banks == [] { assert seq(|banks|, _ => Nothing) == []; }
  }

  lemma PlanStep(banks: seq<Bank>, k: nat, from: Addr, last: Addr, done: seq<Pick>)
    requires k < |banks| && AllWellFormed(banks) && from <= last
    ensures var s := BankStep(banks[k], from, last);
            Prefixed(done, Plan(banks[k..], from, last))
            == if s == Fail then None else Prefixed(done + [s.pick], Plan(banks[k + 1..], s.from, last))
  {
    hide BankStep;
    var s := BankStep(banks[k], from, last);
    assert banks[k..][0] == banks[k] && banks[k..][1..] == banks[k + 1..];
    if s != Fail && Plan(banks[k + 1..], s.from, last).Some? {
      var rest := Plan(banks[k + 1..], s.from, last).value;
      assert done + ([s.pick] + rest) == done + [s.pick] + rest;
    }
  }

  lemma StepOrdered(b: Bank, from: Addr, last: Addr)
    requires WellFormed(b)
    ensures var s := BankStep(b, from, last); s != Fail && s.pick.Sectors? ==> s.pick.first <= s.pick.last
  {
  }
}
