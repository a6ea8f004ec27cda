/** When there is a plan, whatever the order of the banks, and what it picks in each of them. */
module FlashPlans {
  import opened Arith
  import opened Bytes
  import opened Flash
  import opened FlashRound

  ghost predicate StartsIn(b: Bank, a: int) { exists i: nat :: i < |b.start| && b.start[i] == a }

  ghost predicate EndsIn(b: Bank, a: int)
    requires WellFormed(b)
  {
    exists i: nat :: i < |b.start| && SectorEnd(b, i) == a
  }

  // ---------------------------------------------------------------- one bank

  /** What a known bank demands of the range that is left. If the range starts with one of its sectors,
      it must leave the bank or end with one of them; if it does not, it must neither start inside the
      bank (its very last byte is not looked at) nor end with one of its sectors. */
  ghost predicate Allows(b: Bank, from: Addr, last: Addr)
    requires WellFormed(b)
  {
    b.known ==>
      if StartsIn(b, from) then last > BankEnd(b) || EndsIn(b, last)
      else (from < b.start[0] || from >= BankEnd(b)) && !EndsIn(b, last)
  }

  /** The bank contributes sectors to the range. */
  ghost predicate Takes(b: Bank, from: Addr) { b.known && StartsIn(b, from) }

  /** The last address that it contributes. */
  function Until(b: Bank, last: Addr): Addr
    requires WellFormed(b) && b.known
  {
    if last < BankEnd(b) then last else BankEnd(b)
  }

  lemma StartsInIff(b: Bank, a: Addr)
    ensures StartsIn(b, a) <==> StartingAt(b, a, |b.start|).Some?
  {
  }

  lemma EndsInIff(b: Bank, a: Addr)
    requires WellFormed(b)
    ensures EndsIn(b, a) <==> EndingAt(b, a, |b.start|).Some?
  {
    hide SectorEnd;
  }

  /** A bank fails the plan exactly when it does not allow the range, and takes exactly the sectors
      from the start of the range up to its end or the bank's. */
  lemma BankStepIs(b: Bank, from: Addr, last: Addr)
    requires WellFormed(b) && from <= last
    ensures BankStep(b, from, last) == Fail <==> !Allows(b, from, last)
    ensures Allows(b, from, last) && !Takes(b, from) ==> BankStep(b, from, last) == Next(Nothing, from)
    ensures Allows(b, from, last) && Takes(b, from) ==>
              var s := BankStep(b, from, last);
              && s.pick.Sectors? && s.pick.first <= s.pick.last < |b.start| && b.start[s.pick.first] == from
              && SectorEnd(b, s.pick.last) == Until(b, last)
              && s.from == if Until(b, last) == 0xFFFF_FFFF then 0 else Until(b, last) + 1
  {
    hide StartingAt, EndingAt, SectorEnd, BankEnd, StartsIn, EndsIn, After;
    StartsInIff(b, from);
    EndsInIff(b, last);
    if b.known {
      var n := |b.start|;
      var f, l := StartingAt(b, from, n), EndingAt(b, last, n);
      LastEnds(b);
      if l.Some? {
        BankSpan(b, l.value);
        AfterIs(SectorEnd(b, l.value));
        if f.Some? && l.value < f.value { EndsAscend(b, l.value, f.value); }
      }
      AfterIs(BankEnd(b));
    }
  }

  lemma LastEnds(b: Bank)
    requires WellFormed(b) && b.start != []
    ensures SectorEnd(b, |b.start| - 1) == BankEnd(b)
  {
  }

  // ---------------------------------------------------------------- all banks

  /** Where the range that is left starts, once the first `k` banks have been gone through. */
  ghost function FromAt(banks: seq<Bank>, from: Addr, last: Addr, k: nat): Addr
    requires AllWellFormed(banks) && k <= |banks|
  {
    if k == 0 then from
    else
      var a, b := FromAt(banks, from, last, k - 1), banks[k - 1];
      if !Takes(b, a) || a > last then a
      else if Until(b, last) == 0xFFFF_FFFF then 0
      else Until(b, last) + 1
  }

  /** Banks are asked as long as something of the range is left. */
  ghost predicate Asked(banks: seq<Bank>, from: Addr, last: Addr, k: nat)
    requires AllWellFormed(banks) && k < |banks|
  {
    FromAt(banks, from, last, k) <= last
  }

  /** What a plan picks in bank `k`. */
  ghost predicate PicksAs(banks: seq<Bank>, from: Addr, last: Addr, k: nat, pick: Pick)
    requires AllWellFormed(banks) && k < |banks|
  {
    var a, b := FromAt(banks, from, last, k), banks[k];
    if Asked(banks, from, last, k) && Takes(b, a) then
      pick.Sectors? && pick.first <= pick.last < |b.start| && b.start[pick.first] == a && SectorEnd(b, pick.last) == Until(b, last)
    else pick == Nothing
  }

  /** The plan of the banks behind the first. */
  lemma {:induction false} FromAtTail(banks: seq<Bank>, from: Addr, last: Addr, k: nat)
    requires banks != [] && AllWellFormed(banks) && k < |banks| && from <= last && Allows(banks[0], from, last)
    ensures var s := BankStep(banks[0], from, last);
            s != Fail && FromAt(banks, from, last, k + 1) == FromAt(banks[1..], s.from, last, k)
  {
    hide BankStep, StartsIn, Allows, Until, SectorEnd, WellFormed;
    BankStepIs(banks[0], from, last);
    if k == 0 {
      FromAtOne(banks, from, last);
    } else {
      FromAtTail(banks, from, last, k - 1);
      assert banks[1..][k - 1] == banks[k];
    }
  }

  lemma FromAtOne(banks: seq<Bank>, from: Addr, last: Addr)
    requires banks != [] && AllWellFormed(banks) && from <= last
    ensures var b := banks[0];
            FromAt(banks, from, last, 1)
            == if !Takes(b, from) then from else if Until(b, last) == 0xFFFF_FFFF then 0 else Until(b, last) + 1
  {
    hide Takes, Until, WellFormed;
    assert FromAt(banks, from, last, 0) == from;
  }

  /** There is a plan if and only if every bank that is asked allows the range that is left to it;
      and the plan then picks in each bank what the range takes of it. */
  lemma {:induction false} PlanExistsIff(banks: seq<Bank>, from: Addr, last: Addr)
    requires AllWellFormed(banks)
    ensures Plan(banks, from, last).Some?
            <==> forall k :: 0 <= k < |banks| && Asked(banks, from, last, k) ==> Allows(banks[k], FromAt(banks, from, last, k), last)
    ensures Plan(banks, from, last).Some? ==>
              forall k :: 0 <= k < |banks| ==> PicksAs(banks, from, last, k, Plan(banks, from, last).value[k])
    decreases |banks|
  {
    hide BankStep, Allows, FromAt, Takes, SectorEnd, Until, WellFormed;
    FromStart(banks, from, last);
    if banks == [] {
    } else if from > last {
      forall k | 0 <= k < |banks| ensures !Asked(banks, from, last, k) { NoneAsked(banks, from, last, k); }
    } else {
      var b, tail := banks[0], banks[1..];
      BankStepIs(b, from, last);
      if Allows(b, from, last) {
        var s := BankStep(b, from, last);
        PlanExistsIff(tail, s.from, last);
        forall k | 0 <= k < |tail|
          ensures tail[k] == banks[k + 1] && FromAt(banks, from, last, k + 1) == FromAt(tail, s.from, last, k)
        {
          FromAtTail(banks, from, last, k);
        }
        TailAsked(banks, from, last, s.from);
        if Plan(tail, s.from, last).Some? {
          PicksHere(banks, from, last);
          PicksLater(banks, from, last, s.from, s.pick, Plan(tail, s.from, last).value);
        }
      } else {
        assert Asked(banks, from, last, 0);
      }
    }
  }

  lemma FromStart(banks: seq<Bank>, from: Addr, last: Addr)
    requires AllWellFormed(banks)
    ensures FromAt(banks, from, last, 0) == from
  {
  }

  lemma {:induction false} NoneAsked(banks: seq<Bank>, from: Addr, last: Addr, k: nat)
    requires AllWellFormed(banks) && k < |banks| && from > last
    ensures FromAt(banks, from, last, k) == from
  {
    hide Takes, Until;
    if k > 0 { NoneAsked(banks, from, last, k - 1); }
  }

  /** The condition on all banks is the one on the first and the one on the others. */
  lemma TailAsked(banks: seq<Bank>, from: Addr, last: Addr, next: Addr)
    requires banks != [] && AllWellFormed(banks) && from <= last && Allows(banks[0], from, last)
    requires forall k :: 0 <= k < |banks| - 1 ==> FromAt(banks, from, last, k + 1) == FromAt(banks[1..], next, last, k)
    ensures (forall k :: 0 <= k < |banks| && Asked(banks, from, last, k) ==> Allows(banks[k], FromAt(banks, from, last, k), last))
            <==> (forall k :: 0 <= k < |banks[1..]| && Asked(banks[1..], next, last, k) ==> Allows(banks[1..][k], FromAt(banks[1..], next, last, k), last))
  {
    hide Allows, FromAt, WellFormed;
    FromStart(banks, from, last);
    var tail := banks[1..];
    if forall k :: 0 <= k < |banks| && Asked(banks, from, last, k) ==> Allows(banks[k], FromAt(banks, from, last, k), last) {
      forall k | 0 <= k < |tail| && Asked(tail, next, last, k) ensures Allows(tail[k], FromAt(tail, next, last, k), last) {
        assert tail[k] == banks[k + 1] && Asked(banks, from, last, k + 1);
      }
    }
    if forall k :: 0 <= k < |tail| && Asked(tail, next, last, k) ==> Allows(tail[k], FromAt(tail, next, last, k), last) {
      forall k | 0 <= k < |banks| && Asked(banks, from, last, k) ensures Allows(banks[k], FromAt(banks, from, last, k), last) {
        if k > 0 { assert tail[k - 1] == banks[k] && Asked(tail, next, last, k - 1); }
      }
    }
  }

  lemma PicksHere(banks: seq<Bank>, from: Addr, last: Addr)
    requires banks != [] && AllWellFormed(banks) && from <= last && Allows(banks[0], from, last)
    ensures BankStep(banks[0], from, last) != Fail && PicksAs(banks, from, last, 0, BankStep(banks[0], from, last).pick)
  {
    hide BankStep, Allows, Takes, SectorEnd, Until, FromAt;
    FromStart(banks, from, last);
    BankStepIs(banks[0], from, last);
  }

  lemma PicksLater(banks: seq<Bank>, from: Addr, last: Addr, next: Addr, pick: Pick, rest: seq<Pick>)
    requires banks != [] && AllWellFormed(banks) && |rest| == |banks| - 1 && PicksAs(banks, from, last, 0, pick)
    requires forall k :: 0 <= k < |banks| - 1 ==> FromAt(banks, from, last, k + 1) == FromAt(banks[1..], next, last, k)
    requires forall k :: 0 <= k < |rest| ==> PicksAs(banks[1..], next, last, k, rest[k])
    ensures forall k :: 0 <= k < |banks| ==> PicksAs(banks, from, last, k, ([pick] + rest)[k])
  {
    hide FromAt, Takes, SectorEnd, Until, WellFormed;
    var all, tail := [pick] + rest, banks[1..];
    forall k | 0 <= k < |banks| ensures PicksAs(banks, from, last, k, all[k]) {
      if k > 0 { assert all[k] == rest[k - 1] && tail[k - 1] == banks[k] && PicksAs(tail, next, last, k - 1, rest[k - 1]); }
    }
  }

  /** The last byte of a bank is not looked at: a range that starts there, in the middle of a sector, is
      not refused but picks nothing. */
  lemma LastByteSlips()
    ensures var banks := [Bank(true, [0x1000], 0x1000)];
            AllWellFormed(banks) && Plan(banks, 0x1FFF, 0x2FFF) == Some([Nothing]) && Plan(banks, 0x1FFE, 0x2FFF) == None
  {
    var b := Bank(true, [0x1000], 0x1000);
    assert StartingAt(b, 0x1FFF, 1) == None && StartingAt(b, 0x1FFE, 1) == None && EndingAt(b, 0x2FFF, 1) == None;
    assert BankStep(b, 0x1FFF, 0x2FFF) == Next(Nothing, 0x1FFF) && BankStep(b, 0x1FFE, 0x2FFF) == Fail;
    assert [b][1..] == [] && [Nothing] + [] == [Nothing];
  }

  // ---------------------------------------------------------------- counting and rounding

  /** The sectors that are picked, as pairs of bank and sector. */
  function PickedPairs(picks: seq<Pick>): set<(nat, nat)> {
    set k: nat, i: nat | k < |picks| && picks[k].Sectors? && picks[k].first <= i <= picks[k].last :: (k, i)
  }

  /** The sector count of a plan is the number of sectors picked. */
  lemma {:induction false} CountIsNumber(picks: seq<Pick>)
    requires Ordered(picks)
    ensures Count(picks) == |PickedPairs(picks)|
    decreases |picks|
  {
    hide Count, PickedPairs, Row;
    if picks == [] {
      CountEmpty();
      NoPairs();
    } else {
      var n := |picks| - 1;
      var front, p := picks[..n], picks[n];
      assert front + [p] == picks;
      CountSnoc(front, p);
      CountIsNumber(front);
      PairsSnoc(front, p);
      if p.Sectors? {
        RowSize(n, p.first, p.last + 1);
      }
    }
  }

  lemma NoPairs()
    ensures PickedPairs([]) == {}
  {
  }

  lemma PairsSnoc(picks: seq<Pick>, p: Pick)
    ensures p.Nothing? ==> PickedPairs(picks + [p]) == PickedPairs(picks)
    ensures p.Sectors? ==>
              var own := Row(|picks|, p.first, p.last + 1);
              PickedPairs(picks + [p]) == PickedPairs(picks) + own && PickedPairs(picks) !! own
  {
    var all := picks + [p];
    assert forall k :: 0 <= k < |picks| ==> all[k] == picks[k];
  }

  function Row(k: nat, from: nat, end: nat): set<(nat, nat)> { set i: nat | from <= i < end :: (k, i) }

  lemma {:induction false} RowSize(k: nat, from: nat, end: nat)
    requires from <= end
    ensures |Row(k, from, end)| == end - from
    decreases end
  {
    if from == end {
      assert Row(k, from, end) == {};
    } else {
      RowSize(k, from, end - 1);
      assert Row(k, from, end) == Row(k, from, end - 1) + {(k, end - 1)};
    }
  }

  ghost predicate InSector(banks: seq<Bank>, a: int)
    requires AllWellFormed(banks)
  {
    exists k: nat, i: nat :: k < |banks| && i < |banks[k].start| && Contains(banks[k], i, a)
  }

  /** Rounding succeeds exactly for the addresses that lie in some sector, whatever the order of the
      banks, and gives the last address of one that contains the address. */
  lemma RoundsIff(banks: seq<Bank>, a: Addr)
    requires AllWellFormed(banks)
    ensures RoundUp(banks, a).Some? <==> InSector(banks, a)
    ensures RoundUp(banks, a).Some? ==>
              exists k: nat, i: nat :: k < |banks| && i < |banks[k].start| && Contains(banks[k], i, a) && RoundUp(banks, a).value == SectorEnd(banks[k], i)
  {
    hide RoundUp, SectorEnd, WellFormed;
    if RoundUp(banks, a).Some? {
      var k, i := RoundedSector(banks, a);
    }
    if k: nat, i: nat :| k < |banks| && i < |banks[k].start| && Contains(banks[k], i, a) {
      SectorRounds(banks, a, k, i);
    }
  }

  lemma {:induction false} SectorRounds(banks: seq<Bank>, a: Addr, k: nat, i: nat)
    requires AllWellFormed(banks) && k < |banks| && i < |banks[k].start| && Contains(banks[k], i, a)
    ensures RoundUp(banks, a).Some?
    decreases |banks|
  {
    hide SectorEnd, WellFormed;
    if k > 0 {
      assert banks[1..][k - 1] == banks[k];
      SectorRounds(banks[1..], a, k - 1, i);
    }
  }
}
