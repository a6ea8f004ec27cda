/** Rounding the end of a range up to a sector boundary, and the "start +len" form of a range. */
module FlashRound {
  import opened Arith
  import opened Bytes
  import opened Flash

  /** The bank loop of flash_sect_roundb: the end of the first sector that contains `a`. */
  function RoundUp(banks: seq<Bank>, a: Addr): Option<Addr>
    requires AllWellFormed(banks)
  {
    if banks == [] then None
    else
      var r := RoundInBank(banks[0], a, 0);
      if r.Some? then r else RoundUp(banks[1..], a)
  }

  function RoundInBank(b: Bank, a: Addr, i: nat): (r: Option<Addr>)
    requires WellFormed(b) && i <= |b.start|
    ensures r.Some? ==> exists k: nat :: k < |b.start| && Contains(b, k, a) && r.value == SectorEnd(b, k)
    ensures r == None ==> forall k :: i <= k < |b.start| ==> !Contains(b, k, a)
    decreases |b.start| - i
  {
    if i == |b.start| then None
    else if Contains(b, i, a) then Some(SectorEnd(b, i))
    else RoundInBank(b, a, i + 1)
  }

  method SectRoundB(banks: seq<Bank>, a: Addr) returns (rcode: int, rounded: Addr)
    requires AllWellFormed(banks)
    ensures RoundUp(banks, a) == if rcode == 0 then Some(rounded) else None
    ensures rcode != 0 ==> rcode == 1 && rounded == a
  {
    var bank, found := 0, false;
    rounded := a;
    assert banks[0..] == banks;
    while bank < |banks| && !found
      invariant 0 <= bank <= |banks|
      invariant !found ==> rounded == a && RoundUp(banks, a) == RoundUp(banks[bank..], a)
      invariant found ==> RoundUp(banks, a) == Some(rounded)
    {
      var info := banks[bank];
      assert banks[bank..][0] == info && banks[bank..][1..] == banks[bank + 1..];
      var i := 0;
      while i < |info.start| && !found
        invariant 0 <= i <= |info.start|
        invariant !found ==> rounded == a && RoundInBank(info, a, 0) == RoundInBank(info, a, i)
        invariant found ==> RoundInBank(info, a, 0) == Some(rounded)
      {
        var end := SectorEnd(info, i);
        if a <= end && a >= info.start[i] {
          found := true;
          if a < end {
            rounded := end;
          }
        }
        i := i + 1;
      }
      bank := bank + 1;
    }
    rcode := if found then 0 else 1;
  }

  // ---------------------------------------------------------------- "start +len"

  /** Banks back to back in ascending order from `at` on; unpopulated ones may be anywhere
      between them. */
  predicate BackToBack(banks: seq<Bank>, at: int)
    requires AllWellFormed(banks)
    decreases |banks|
  {
    banks == [] ||
    if banks[0].start == [] then BackToBack(banks[1..], at)
    else banks[0].known && banks[0].start[0] == at && BackToBack(banks[1..], BankEnd(banks[0]) + 1)
  }

  /** The address after the last of them. */
  function Limit(banks: seq<Bank>, at: int): int
    requires AllWellFormed(banks)
    decreases |banks|
  {
    if banks == [] then at
    else if banks[0].start == [] then Limit(banks[1..], at)
    else Limit(banks[1..], BankEnd(banks[0]) + 1)
  }

  ghost predicate StartsSector(banks: seq<Bank>, a: int)
    requires AllWellFormed(banks)
  {
    exists k: nat, i: nat :: k < |banks| && i < |banks[k].start| && banks[k].start[i] == a
  }

  lemma BankSpan(b: Bank, i: nat)
    requires WellFormed(b) && i < |b.start|
    ensures b.start[0] <= b.start[i] <= SectorEnd(b, i) <= BankEnd(b)
  {
    StartsAscend(b, 0, i);
  }

  lemma {:induction false} LimitGrows(banks: seq<Bank>, at: int)
    requires AllWellFormed(banks) && BackToBack(banks, at)
    ensures at <= Limit(banks, at)
    decreases |banks|
  {
    hide BankEnd;
    if banks != [] {
      var b := banks[0];
      if b.start == [] {
        LimitGrows(banks[1..], at);
      } else {
        BankSpan(b, 0);
        LimitGrows(banks[1..], BankEnd(b) + 1);
      }
    }
  }

  /** Every sector lies between the two. */
  lemma {:induction false} Extent(banks: seq<Bank>, at: int, k: nat, i: nat)
    requires AllWellFormed(banks) && BackToBack(banks, at) && k < |banks| && i < |banks[k].start|
    ensures at <= banks[k].start[i] && SectorEnd(banks[k], i) < Limit(banks, at)
    ensures banks[k].known
    decreases |banks|
  {
    hide BankEnd, SectorEnd;
    var b, tail := banks[0], banks[1..];
    if k > 0 { assert tail[k - 1] == banks[k]; }
    if b.start == [] {
      Extent(tail, at, k - 1, i);
    } else {
      BankSpan(b, 0);
      if k > 0 {
        Extent(tail, BankEnd(b) + 1, k - 1, i);
      } else {
        BankSpan(b, i);
        LimitGrows(tail, BankEnd(b) + 1);
      }
    }
  }

  /** Rounding succeeds exactly inside the flash. */
  lemma {:induction false} RoundUpIff(banks: seq<Bank>, at: int, a: Addr)
    requires AllWellFormed(banks) && BackToBack(banks, at)
    ensures RoundUp(banks, a).Some? <==> at <= a < Limit(banks, at)
    decreases |banks|
  {
    hide BankEnd, SectorEnd, RoundInBank;
    if banks != [] {
      var b, tail := banks[0], banks[1..];
      RoundInBankIff(b, a);
      if b.start == [] {
        RoundUpIff(tail, at, a);
      } else {
        BankSpan(b, 0);
        RoundUpIff(tail, BankEnd(b) + 1, a);
        LimitGrows(tail, BankEnd(b) + 1);
      }
    }
  }

  lemma RoundInBankIff(b: Bank, a: Addr)
    requires WellFormed(b)
    ensures RoundInBank(b, a, 0).Some? <==> b.start != [] && b.start[0] <= a <= BankEnd(b)
  {
    hide BankEnd;
    if b.start != [] {
      var n := |b.start|;
      if RoundInBank(b, a, 0).Some? {
        var k: nat :| k < n && Contains(b, k, a);
        BankSpan(b, k);
      } else if b.start[0] <= a <= BankEnd(b) {
        var i := SectorRun(b, 0, n - 1, a);
      }
    }
  }

  /** Only the last populated bank can end at the top. */
  lemma {:induction false} NothingAbove(banks: seq<Bank>, from: Addr, last: Addr)
    requires AllWellFormed(banks) && BackToBack(banks, M32)
    ensures Plan(banks, from, last).Some? && !SomeAtBottom(banks) && !TopBeforeBottom(banks)
    decreases |banks|
  {
    if banks == [] {
    } else {
      assert banks[0].start == [];
      NothingAbove(banks[1..], from, last);
      BottomHereOrLater(banks);
      TailTopBeforeBottom(banks);
    }
  }

  lemma {:induction false} NoWrap(banks: seq<Bank>, at: int)
    requires AllWellFormed(banks) && BackToBack(banks, at)
    ensures !TopBeforeBottom(banks)
    decreases |banks|
  {
    hide TopBeforeBottom, SomeAtBottom;
    if banks == [] {
      NoTop();
    } else {
      var b, tail := banks[0], banks[1..];
      TailTopBeforeBottom(banks);
      if b.start == [] {
        NoWrap(tail, at);
      } else {
        NoWrap(tail, BankEnd(b) + 1);
        if AtTop(b) { NothingAbove(tail, 0, 0); }
      }
    }
  }

  /** A sector start beyond the first bank. */
  lemma StartsBeyond(banks: seq<Bank>, at: int, a: int)
    requires banks != [] && AllWellFormed(banks) && BackToBack(banks[1..], at) && StartsSector(banks, a)
    requires forall i :: 0 <= i < |banks[0].start| ==> banks[0].start[i] != a
    ensures StartsSector(banks[1..], a) && a >= at
  {
    hide BackToBack, WellFormed;
    var k: nat, i: nat :| k < |banks| && i < |banks[k].start| && banks[k].start[i] == a;
    assert banks[1..][k - 1] == banks[k];
    Extent(banks[1..], at, k - 1, i);
  }

  lemma EndsBeyond(banks: seq<Bank>, at: int, a: int)
    requires banks != [] && AllWellFormed(banks) && BackToBack(banks[1..], at) && EndsSector(banks, a)
    requires forall i :: 0 <= i < |banks[0].start| ==> SectorEnd(banks[0], i) != a
    ensures EndsSector(banks[1..], a) && a >= at
  {
    hide BackToBack, WellFormed;
    var k: nat, i: nat :| k < |banks| && banks[k].known && i < |banks[k].start| && SectorEnd(banks[k], i) == a;
    assert banks[1..][k - 1] == banks[k];
    Extent(banks[1..], at, k - 1, i);
  }

  /** If there is a sector at all, one starts at the front. */
  lemma {:induction false} FrontStarts(banks: seq<Bank>, at: int, last: int)
    requires AllWellFormed(banks) && BackToBack(banks, at) && EndsSector(banks, last)
    ensures StartsSector(banks, at)
    decreases |banks|
  {
    hide SectorEnd, BankEnd;
    var k0: nat, i0: nat :| k0 < |banks| && banks[k0].known && i0 < |banks[k0].start| && SectorEnd(banks[k0], i0) == last;
    if banks[0].start == [] {
      var tail := banks[1..];
      assert tail[k0 - 1] == banks[k0];
      FrontStarts(tail, at, last);
      var k: nat, i: nat :| k < |tail| && i < |tail[k].start| && tail[k].start[i] == at;
      assert banks[k + 1] == tail[k];
    } else {
      assert banks[0].start[0] == at;
    }
  }

  /** A bank before the range is passed over. */
  lemma BankBefore(b: Bank, from: Addr, last: Addr)
    requires WellFormed(b) && b.known && BankEnd(b) < from <= last
    ensures BankStep(b, from, last) == Next(Nothing, from)
  {
    hide StartingAt, EndingAt, SectorEnd, BankEnd;
    assert forall i :: 0 <= i < |b.start| ==> b.start[i] <= SectorEnd(b, i) <= BankEnd(b);
  }

  /** A bank in which the range starts, and beyond which it ends, is taken to its end. */
  lemma BankWhole(b: Bank, from: Addr, last: Addr, f: nat)
    requires WellFormed(b) && b.known && from <= last
    requires f < |b.start| && b.start[f] == from && last > BankEnd(b)
    ensures BankStep(b, from, last) != Fail && BankStep(b, from, last).from == After(BankEnd(b))
  {
    hide StartingAt, EndingAt, BankEnd, After;
    assert StartingAt(b, from, |b.start|).Some?;
  }

  /** A bank in which the range starts and ends finishes it. */
  lemma BankPart(b: Bank, from: Addr, last: Addr, f: nat, l: nat)
    requires WellFormed(b) && b.known && from <= last
    requires f < |b.start| && b.start[f] == from && l < |b.start| && SectorEnd(b, l) == last
    ensures BankStep(b, from, last) != Fail && BankStep(b, from, last).from == After(last)
  {
    hide StartingAt, EndingAt, BankEnd, SectorEnd, After;
    var f', l' := StartingAt(b, from, |b.start|), EndingAt(b, last, |b.start|);
    assert f'.Some? && l'.Some?;
    if l'.value < f'.value {
      EndsAscend(b, l'.value, f'.value);
    }
  }

  /** What the first bank does when the range starts and ends on sector boundaries. */
  lemma FirstBank(b: Bank, from: Addr, last: Addr)
    requires WellFormed(b) && b.known && from <= last
    requires from > BankEnd(b) || exists i: nat :: i < |b.start| && b.start[i] == from
    requires last > BankEnd(b) || exists i: nat :: i < |b.start| && SectorEnd(b, i) == last
    ensures var s := BankStep(b, from, last);
            && s != Fail
            && s.from == (if from > BankEnd(b) then from else if last > BankEnd(b) then BankEnd(b) + 1 else After(last))
  {
    hide BankStep, SectorEnd, BankEnd;
    if from > BankEnd(b) {
      BankBefore(b, from, last);
    } else {
      var f: nat :| f < |b.start| && b.start[f] == from;
      if last > BankEnd(b) {
        BankWhole(b, from, last, f);
      } else {
        var l: nat :| l < |b.start| && SectorEnd(b, l) == last;
        BankPart(b, from, last, f, l);
      }
    }
  }

  /** Over banks back to back a range between sector boundaries always has a plan, up to and
      including the top of the address space. */
  lemma {:induction false} PlanSucceeds(banks: seq<Bank>, at: int, from: Addr, last: Addr)
    requires AllWellFormed(banks) && BackToBack(banks, at) && from <= last
    requires StartsSector(banks, from) && EndsSector(banks, last)
    ensures Plan(banks, from, last).Some?
    decreases |banks|
  {
    hide BankStep, SectorEnd, StartsSector, EndsSector, StartingAt, EndingAt, BankEnd, After;
    if banks == [] {
      NoSectorEnds(last);
    } else {
      var b, tail := banks[0], banks[1..];
      if b.start == [] {
        StartsBeyond(banks, at, from);
        EndsBeyond(banks, at, last);
        PlanSucceeds(tail, at, from, last);
        UnknownStep(b, from, last);
      } else {
        PlanSucceedsHere(banks, from, last);
        var s := BankStep(b, from, last);
        if s.from > last {
          PlanEnd(tail, s.from, last);
        } else if BankEnd(b) == M32 - 1 {
          NothingAbove(tail, s.from, last);
        } else {
          PlanSucceeds(tail, BankEnd(b) + 1, s.from, last);
        }
      }
    }
  }

  lemma UnknownStep(b: Bank, from: Addr, last: Addr)
    requires WellFormed(b) && b.start == []
    ensures BankStep(b, from, last) == Next(Nothing, from)
  {
  }

  /** A populated first bank does not fail, and what is left of the range starts a sector of
      the banks behind it. */
  lemma PlanSucceedsHere(banks: seq<Bank>, from: Addr, last: Addr)
    requires banks != [] && AllWellFormed(banks) && banks[0].known && BackToBack(banks[1..], BankEnd(banks[0]) + 1)
    requires from <= last && StartsSector(banks, from) && EndsSector(banks, last)
    ensures BankStep(banks[0], from, last) != Fail
    ensures var s, end := BankStep(banks[0], from, last), BankEnd(banks[0]);
            s.from > last || end == M32 - 1 || (StartsSector(banks[1..], s.from) && EndsSector(banks[1..], last))
  {
    hide BankStep, StartsSector, EndsSector, BackToBack;
    var b, tail := banks[0], banks[1..];
    var end: int := BankEnd(b);
    var here := exists i: nat :: i < |b.start| && b.start[i] == from;
    var stops := exists i: nat :: i < |b.start| && SectorEnd(b, i) == last;
    if !here { StartsBeyond(banks, end + 1, from); }
    if !stops { EndsBeyond(banks, end + 1, last); }
    if i: nat :| i < |b.start| && b.start[i] == from { BankSpan(b, i); }
    if i: nat :| i < |b.start| && SectorEnd(b, i) == last { BankSpan(b, i); }
    FirstBank(b, from, last);
    AfterIs(last);
    if here && !stops { FrontStarts(tail, end + 1, last); }
  }

  lemma {:induction false} RoundedSector(banks: seq<Bank>, a: Addr) returns (k: nat, i: nat)
    requires AllWellFormed(banks) && RoundUp(banks, a).Some?
    ensures k < |banks| && i < |banks[k].start| && Contains(banks[k], i, a)
    ensures RoundUp(banks, a).value == SectorEnd(banks[k], i)
    decreases |banks|
  {
    var r := RoundInBank(banks[0], a, 0);
    if r.Some? {
      k := 0;
      i :| i < |banks[0].start| && Contains(banks[0], i, a) && r.value == SectorEnd(banks[0], i);
    } else {
      var k', i' := RoundedSector(banks[1..], a);
      k, i := k' + 1, i';
    }
  }

  /** No sector starts inside another one. */
  lemma {:induction false} NoOverlap(banks: seq<Bank>, at: int, k: nat, i: nat, k': nat, i': nat)
    requires AllWellFormed(banks) && BackToBack(banks, at) && k < |banks| && k' < |banks|
    requires i < |banks[k].start| && i' < |banks[k'].start|
    ensures !(banks[k].start[i] < banks[k'].start[i'] <= SectorEnd(banks[k], i))
    decreases |banks|
  {
    hide SectorEnd, BankEnd;
    var b, tail := banks[0], banks[1..];
    var next := if b.start == [] then at else BankEnd(b) + 1;
    if k > 0 { assert tail[k - 1] == banks[k]; }
    if k' > 0 { assert tail[k' - 1] == banks[k']; }
    if k > 0 && k' > 0 {
      NoOverlap(tail, next, k - 1, i, k' - 1, i');
    } else if k > 0 {
      Extent(tail, next, k - 1, i);
      BankSpan(b, i');
    } else if k' > 0 {
      Extent(tail, next, k' - 1, i');
      BankSpan(b, i);
    } else {
      if i < i' { EndsAscend(b, i, i'); }
      if i' < i { EndsAscend(b, i', i); BankSpan(b, i'); }
    }
  }

  /** Every picked sector starts no later than `a`. */
  ghost predicate Needed(banks: seq<Bank>, picks: seq<Pick>, a: int)
    requires AllWellFormed(banks)
  {
    forall k: nat, i: nat :: Picked(picks, k, i) ==> k < |banks| && i < |banks[k].start| && banks[k].start[i] <= a
  }

  /** "start +len" over banks back to back: rounding succeeds exactly when the stretch ends
      inside the flash; planning then succeeds too, and the picked sectors cover the stretch
      without a gap, each of them needed. */
  lemma StartPlusLen(banks: seq<Bank>, at: int, start: Addr, len: nat)
    requires AllWellFormed(banks) && BackToBack(banks, at) && StartsSector(banks, start)
    requires len > 0 && start + len - 1 < M32
    ensures RoundUp(banks, start + len - 1).Some? <==> start + len <= Limit(banks, at)
    ensures start + len <= Limit(banks, at) ==>
              var last := RoundUp(banks, start + len - 1).value;
              && start + len - 1 <= last && Plan(banks, start, last).Some?
              && Tiles(banks, Plan(banks, start, last).value, start, last + 1)
              && Needed(banks, Plan(banks, start, last).value, start + len - 1)
  {
    hide BankStep, Tiles, RoundUp, SectorEnd, Plan, BankEnd, BackToBack, TopBeforeBottom, Limit;
    var end := start + len - 1;
    var k: nat, i: nat :| k < |banks| && i < |banks[k].start| && banks[k].start[i] == start;
    Extent(banks, at, k, i);
    RoundUpIff(banks, at, end);
    if start + len <= Limit(banks, at) {
      var last := RoundUp(banks, end).value;
      var k0, i0 := RoundedSector(banks, end);
      Extent(banks, at, k0, i0);
      assert EndsSector(banks, last);
      PlanSucceeds(banks, at, start, last);
      NoWrap(banks, at);
      var stop := PlanTiles(banks, start, last);
      AllNeeded(banks, at, Plan(banks, start, last).value, start, last, end, k0, i0);
    }
  }

  lemma AllNeeded(banks: seq<Bank>, at: int, picks: seq<Pick>, start: int, last: int, a: int, k0: nat, i0: nat)
    requires AllWellFormed(banks) && BackToBack(banks, at) && Tiles(banks, picks, start, last + 1)
    requires k0 < |banks| && i0 < |banks[k0].start| && Contains(banks[k0], i0, a) && SectorEnd(banks[k0], i0) == last
    ensures Needed(banks, picks, a)
  {
    hide SectorEnd, BackToBack;
    forall k: nat, i: nat | Picked(picks, k, i) ensures k < |banks| && i < |banks[k].start| && banks[k].start[i] <= a {
      NoOverlap(banks, at, k0, i0, k, i);
    }
  }
}
