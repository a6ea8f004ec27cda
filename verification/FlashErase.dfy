/** Erasing and protecting a planned range of flash. */
module FlashErase {
  import opened Arith
  import opened Bytes
  import opened Flash

  /** One call of the driver's flash_erase. */
  datatype Call = Call(bank: nat, first: nat, last: nat)

  /** The calls that a plan asks for, bank by bank; `k` is the number of the first bank. */
  function Calls(picks: seq<Pick>, k: nat): seq<Call>
    decreases |picks|
  {
    if picks == [] then []
    else (if picks[0].Sectors? then [Call(k, picks[0].first, picks[0].last)] else []) + Calls(picks[1..], k + 1)
  }

  lemma {:induction false} CallsSnoc(picks: seq<Pick>, p: Pick, k: nat)
    ensures Calls(picks + [p], k) == Calls(picks, k) + if p.Sectors? then [Call(k + |picks|, p.first, p.last)] else []
    decreases |picks|
  {
    if picks == [] {
      assert ([] + [p])[1..] == [] && ([] + [p])[0] == p;
    } else {
      assert (picks + [p])[1..] == picks[1..] + [p] && (picks + [p])[0] == picks[0];
      CallsSnoc(picks[1..], p, k + 1);
      assert k + 1 + |picks[1..]| == k + |picks|;
      var here := if picks[0].Sectors? then [Call(k, picks[0].first, picks[0].last)] else [];
      var more := if p.Sectors? then [Call(k + |picks|, p.first, p.last)] else [];
      assert here + (Calls(picks[1..], k + 1) + more) == here + Calls(picks[1..], k + 1) + more;
    }
  }

  /** How many sectors are to be erased: none if there is no plan. */
  function Planned(banks: seq<Bank>, first: Addr, last: Addr): nat
    requires AllWellFormed(banks)
  {
    var plan := Plan(banks, first, last);
    if plan == None then 0 else PlanNames(banks, first, last); Count(plan.value)
  }

  /** Sector `i` of bank `k` was erased. */
  ghost predicate Erased(log: seq<Call>, k: nat, i: nat) {
    exists c :: 0 <= c < |log| && log[c].bank == k && log[c].first <= i <= log[c].last
  }

  /** The calls of a plan reach its sectors and no others. */
  lemma {:induction false} CallsErase(picks: seq<Pick>, k0: nat, k: nat, i: nat)
    ensures Erased(Calls(picks, k0), k, i) <==> k >= k0 && Picked(picks, k - k0, i)
    decreases |picks|
  {
    if picks != [] {
      var here := if picks[0].Sectors? then [Call(k0, picks[0].first, picks[0].last)] else [];
      var rest := Calls(picks[1..], k0 + 1);
      CallsErase(picks[1..], k0 + 1, k, i);
      ErasedConcat(here, rest, k, i);
      if k > k0 { assert Picked(picks, k - k0, i) == Picked(picks[1..], k - k0 - 1, i); }
      if picks[0].Sectors? { assert here[0] == Call(k0, picks[0].first, picks[0].last); }
    }
  }

  lemma ErasedConcat(a: seq<Call>, b: seq<Call>, k: nat, i: nat)
    ensures Erased(a + b, k, i) <==> Erased(a, k, i) || Erased(b, k, i)
  {
    var all := a + b;
    if Erased(a, k, i) {
      var c :| 0 <= c < |a| && a[c].bank == k && a[c].first <= i <= a[c].last;
      assert all[c] == a[c];
    }
    if Erased(b, k, i) {
      var c :| 0 <= c < |b| && b[c].bank == k && b[c].first <= i <= b[c].last;
      assert all[|a| + c] == b[c];
    }
    if Erased(all, k, i) {
      var c :| 0 <= c < |all| && all[c].bank == k && all[c].first <= i <= all[c].last;
      if c < |a| { assert all[c] == a[c]; } else { assert all[c] == b[c - |a|]; }
    }
  }

  /** flash_sect_erase: nothing is erased without a plan that picks something; the driver is
      called for the picked sectors in bank order, and no further once it fails. */
  method SectErase(banks: seq<Bank>, first: Addr, last: Addr, driver: nat -> int) returns (rcode: int, log: seq<Call>)
    requires AllWellFormed(banks)
    ensures var plan := Plan(banks, first, last);
            if Planned(banks, first, last) == 0 then rcode == 1 && log == []
            else
              && log <= Calls(plan.value, 0)
              && (forall c :: 0 <= c < |log| - 1 ==> driver(c) == 0)
              && (rcode == 0 ==> log == Calls(plan.value, 0) && (log != [] ==> driver(|log| - 1) == 0))
              && (rcode != 0 ==> log != [] && driver(|log| - 1) == rcode)
  {
    hide Plan, Count;
    log := [];
    var sFirst, sLast := new int[|banks|](_ => -1), new int[|banks|](_ => -1);
    var planned;
    rcode, planned := FillSectRanges(banks, first, last, sFirst, sLast);
    if rcode != 0 {
      return;
    }
    if planned == 0 {
      return 1, log;
    }
    ghost var picks := Plan(banks, first, last).value;
    var bank := 0;
    assert picks[..0] == [];
    while bank < |banks| && rcode == 0
      invariant 0 <= bank <= |banks|
      invariant forall k :: 0 <= k < |banks| ==> Shows(sFirst[k], sLast[k], picks[k])
      invariant log == Calls(picks[..bank], 0)
      invariant forall c :: 0 <= c < |log| - 1 ==> driver(c) == 0
      invariant rcode == 0 ==> log != [] ==> driver(|log| - 1) == 0
      invariant rcode != 0 ==> log != [] && driver(|log| - 1) == rcode
    {
      assert picks[..bank + 1] == picks[..bank] + [picks[bank]];
      CallsSnoc(picks[..bank], picks[bank], 0);
      assert Shows(sFirst[bank], sLast[bank], picks[bank]);
      if sFirst[bank] >= 0 {
        rcode := driver(|log|);
        log := log + [Call(bank, sFirst[bank], sLast[bank])];
      }
      bank := bank + 1;
    }
    CallsPrefix(picks, bank);
    assert picks[..|banks|] == picks;
  }

  lemma {:induction false} CallsPrefix(picks: seq<Pick>, n: nat)
    requires n <= |picks|
    ensures Calls(picks[..n], 0) <= Calls(picks, 0)
    decreases |picks| - n
  {
    if n < |picks| {
      assert picks[..n + 1] == picks[..n] + [picks[n]];
      CallsSnoc(picks[..n], picks[n], 0);
      CallsPrefix(picks, n + 1);
    } else {
      assert picks[..n] == picks;
    }
  }

  /** What a successful erase has erased: sectors that make up one gap-free stretch from
      `first` on and stay inside the range, all of it when `last` ends a sector. */
  lemma ErasedRange(banks: seq<Bank>, first: Addr, last: Addr) returns (stop: int)
    requires AllWellFormed(banks) && first <= last && Plan(banks, first, last).Some?
    requires last < M32 - 1 || first == 0 || !TopBeforeBottom(banks)
    ensures var log := Calls(Plan(banks, first, last).value, 0);
            && first <= stop <= last + 1 && (EndsSector(banks, last) ==> stop == last + 1)
            && (forall k: nat, i: nat :: Erased(log, k, i) ==>
                  && k < |banks| && banks[k].known && i < |banks[k].start|
                  && first <= banks[k].start[i] && SectorEnd(banks[k], i) < stop)
            && forall a :: first <= a < stop ==> Wiped(banks, log, a)
  {
    hide Plan, TopBeforeBottom, EndsSector, Calls, SectorEnd;
    var picks := Plan(banks, first, last).value;
    stop := PlanTiles(banks, first, last);
    forall k: nat, i: nat ensures Erased(Calls(picks, 0), k, i) <==> Picked(picks, k, i) {
      CallsErase(picks, 0, k, i);
    }
    forall a | first <= a < stop ensures Wiped(banks, Calls(picks, 0), a) {
      assert Covered(banks, picks, a);
    }
  }

  /** Address `a` lies in an erased sector. */
  ghost predicate Wiped(banks: seq<Bank>, log: seq<Call>, a: int)
    requires AllWellFormed(banks)
  {
    exists k: nat, i: nat :: Erased(log, k, i) && k < |banks| && i < |banks[k].start| && Contains(banks[k], i, a)
  }

  /** flash_sect_protect: the protection of exactly the picked sectors changes. */
  method SectProtect(banks: seq<Bank>, first: Addr, last: Addr, p: bool, protect: array2<bool>) returns (rcode: int)
    requires AllWellFormed(banks) && protect.Length0 == |banks|
    requires forall k :: 0 <= k < |banks| ==> |banks[k].start| <= protect.Length1
    modifies protect
    ensures var plan := Plan(banks, first, last);
            if Planned(banks, first, last) == 0 then
              rcode == 1 && forall k, i :: 0 <= k < protect.Length0 && 0 <= i < protect.Length1 ==> protect[k, i] == old(protect[k, i])
            else
              rcode == 0 && forall k, i :: 0 <= k < protect.Length0 && 0 <= i < protect.Length1 ==>
                protect[k, i] == if Picked(plan.value, k, i) then p else old(protect[k, i])
  {
    hide Plan, Count;
    var sFirst, sLast := new int[|banks|](_ => -1), new int[|banks|](_ => -1);
    var planned;
    rcode, planned := FillSectRanges(banks, first, last, sFirst, sLast);
    if rcode != 0 {
      return;
    }
    if planned == 0 {
      return 1;
    }
    ghost var picks := Plan(banks, first, last).value;
    PlanNames(banks, first, last);
    var bank := 0;
    while bank < |banks|
      invariant 0 <= bank <= |banks|
      invariant forall k :: 0 <= k < |banks| ==> Shows(sFirst[k], sLast[k], picks[k])
      invariant forall k, i :: 0 <= k < protect.Length0 && 0 <= i < protect.Length1 ==>
                  protect[k, i] == if k < bank && Picked(picks, k, i) then p else old(protect[k, i])
    {
      if banks[bank].known && sFirst[bank] >= 0 && sFirst[bank] <= sLast[bank] {
        var s := sFirst[bank];
        while s <= sLast[bank]
          invariant sFirst[bank] <= s <= sLast[bank] + 1
          invariant forall k :: 0 <= k < |banks| ==> Shows(sFirst[k], sLast[k], picks[k])
          invariant forall k, i :: 0 <= k < protect.Length0 && 0 <= i < protect.Length1 ==>
                      protect[k, i] == if (k < bank && Picked(picks, k, i)) || (k == bank && sFirst[bank] <= i < s) then p else old(protect[k, i])
        {
          protect[bank, s] := p;
          s := s + 1;
        }
      }
      bank := bank + 1;
    }
  }
}
