/** Whole runs of queue operations: what every sequence of them does to the lists, and that each
    precedence hands its packets out in the order they came in. */
module PacketRuns {
  import opened Bytes
  import opened PacketQueue

  /** The operations; Deq takes from the highest allowed precedence, all of them being
      allowed if there is no bitmap. */
  datatype Op =
    | Penq(prec: nat, p: Pkt)
    | PenqHead(prec: nat, p: Pkt)
    | Pdeq(prec: nat)
    | PdeqTail(prec: nat)
    | Pdel(prec: nat, p: Pkt)
    | Pflush(prec: nat)
    | Deq(bmp: Option<bv32>)
    | DeqTail
    | Flush

  predicate Selects(bmp: Option<bv32>, i: nat)
    requires i < MAX_PREC
  {
    bmp == None || Allowed(bmp.value, i)
  }

  /** The highest allowed precedence below `n` that is not empty; -1 if there is none. */
  function Top(lists: seq<seq<Pkt>>, bmp: Option<bv32>, n: nat): (c: int)
    requires n <= |lists| <= MAX_PREC
    ensures -1 <= c < n && (c >= 0 ==> lists[c] != [] && Selects(bmp, c))
    ensures forall i :: c < i < n && i >= 0 && Selects(bmp, i) ==> lists[i] == []
  {
    if n == 0 then -1 else if lists[n - 1] != [] && Selects(bmp, n - 1) then n - 1 else Top(lists, bmp, n - 1)
  }

  /** The lowest precedence from `n` on that is not empty. */
  function Bottom(lists: seq<seq<Pkt>>, n: nat): (c: int)
    requires n <= |lists|
    ensures c == -1 || (n <= c < |lists| && lists[c] != [])
    ensures forall i :: n <= i < (if c < 0 then |lists| else c) ==> lists[i] == []
    decreases |lists| - n
  {
    if n == |lists| then -1 else if lists[n] != [] then n else Bottom(lists, n + 1)
  }

  function Without(list: seq<Pkt>, p: Pkt): seq<Pkt> {
    if list == [] then [] else if list[0] == p then list[1..] else [list[0]] + Without(list[1..], p)
  }

  function Rest(list: seq<Pkt>): seq<Pkt> { if list == [] then [] else list[1..] }

  function Front(list: seq<Pkt>): seq<Pkt> { if list == [] then [] else list[..|list| - 1] }

  predicate InRange(op: Op, n: nat) {
    op.Penq? || op.PenqHead? || op.Pdeq? || op.PdeqTail? || op.Pdel? || op.Pflush? ==> op.prec < n
  }

  /** The lists after an operation. */
  function After(lists: seq<seq<Pkt>>, op: Op): (r: seq<seq<Pkt>>)
    requires |lists| <= MAX_PREC && InRange(op, |lists|)
    ensures |r| == |lists|
  {
    match op
    case Penq(c, p) => lists[c := lists[c] + [p]]
    case PenqHead(c, p) => lists[c := [p] + lists[c]]
    case Pdeq(c) => lists[c := Rest(lists[c])]
    case PdeqTail(c) => lists[c := Front(lists[c])]
    case Pdel(c, p) => lists[c := Without(lists[c], p)]
    case Pflush(c) => lists[c := []]
    case Deq(bmp) =>
      var c := Top(lists, bmp, |lists|);
      if c < 0 then lists else lists[c := Rest(lists[c])]
    case DeqTail =>
      var c := Bottom(lists, 0);
      if c < 0 then lists else lists[c := Front(lists[c])]
    case Flush => seq(|lists|, _ => [])
  }

  /** What it takes out of list `c`. */
  function Taken(lists: seq<seq<Pkt>>, op: Op, c: nat): seq<Pkt>
    requires c < |lists| <= MAX_PREC && InRange(op, |lists|)
  {
    match op
    case Penq(_, _) => []
    case PenqHead(_, _) => []
    case Pdeq(prec) => if c == prec then lists[c][..|lists[c]| - |Rest(lists[c])|] else []
    case PdeqTail(prec) => if c == prec then lists[c][|Front(lists[c])|..] else []
    case Pdel(prec, p) => if c == prec && p in lists[c] then [p] else []
    case Pflush(prec) => if c == prec then lists[c] else []
    case Deq(bmp) => if c == Top(lists, bmp, |lists|) then lists[c][..1] else []
    case DeqTail => if c == Bottom(lists, 0) then lists[c][|lists[c]| - 1..] else []
    case Flush => lists[c]
  }

  /** What it puts into list `c`. */
  function Added(op: Op, c: nat): seq<Pkt> {
    if (op.Penq? || op.PenqHead?) && op.prec == c then [op.p] else []
  }

  /** First in, first out: packets are added behind and taken in front. */
  predicate Fifo(op: Op) { op.Penq? || op.Pdeq? || op.Deq? || op.Pflush? || op.Flush? }

  // ---------------------------------------------------------------- one operation

  lemma {:induction false} WithoutOne(list: seq<Pkt>, p: Pkt)
    ensures p in list ==> multiset(Without(list, p)) + multiset{p} == multiset(list)
    ensures p !in list ==> Without(list, p) == list
  {
    if list != [] && list[0] != p {
      WithoutOne(list[1..], p);
      assert list == [list[0]] + list[1..];
    } else if list != [] {
      assert list == [p] + list[1..];
    }
  }

  /** What came out and what is left are what was there and what went in. */
  predicate Balanced(taken: seq<Pkt>, left: seq<Pkt>, before: seq<Pkt>, added: seq<Pkt>) {
    multiset(taken) + multiset(left) == multiset(before) + multiset(added)
  }

  /** Nothing is lost, invented or doubled, at any precedence. */
  lemma Conserved(lists: seq<seq<Pkt>>, op: Op, c: nat)
    requires c < |lists| <= MAX_PREC && InRange(op, |lists|)
    ensures Balanced(Taken(lists, op, c), After(lists, op)[c], lists[c], Added(op, c))
  {
    hide Bottom, Without, Front, Balanced, Top;
    var list := lists[c];
    match op
    case PenqHead(_, p) => BalancedHead(p, list);
    case Pdel(_, p) => BalancedWithout(list, p);
    case PdeqTail(_) => BalancedTail(list);
    case DeqTail => BalancedTail(list);
    case _ =>
      InOrder(lists, op, c);
      BalancedInOrder(Taken(lists, op, c), After(lists, op)[c], list, Added(op, c));
  }

  lemma BalancedInOrder(a: seq<Pkt>, b: seq<Pkt>, c: seq<Pkt>, d: seq<Pkt>)
    requires a + b == c + d
    ensures Balanced(a, b, c, d)
  {
    assert multiset(a + b) == multiset(a) + multiset(b) && multiset(c + d) == multiset(c) + multiset(d);
  }

  lemma BalancedHead(p: Pkt, list: seq<Pkt>)
    ensures Balanced([], [p] + list, list, [p]) && Balanced([], list, list, [])
  {
  }

  lemma BalancedTail(list: seq<Pkt>)
    ensures Balanced(list[|Front(list)|..], Front(list), list, []) && Balanced([], list, list, [])
    ensures list != [] ==> |Front(list)| == |list| - 1
  {
    assert list == Front(list) + list[|Front(list)|..];
  }

  lemma BalancedWithout(list: seq<Pkt>, p: Pkt)
    ensures p in list ==> Balanced([p], Without(list, p), list, [])
    ensures p !in list ==> Without(list, p) == list
    ensures Balanced([], list, list, [])
  {
    hide Without;
    WithoutOne(list, p);
  }

  /** And packets that are added behind and taken in front keep their order. */
  lemma InOrder(lists: seq<seq<Pkt>>, op: Op, c: nat)
    requires c < |lists| <= MAX_PREC && InRange(op, |lists|) && Fifo(op)
    ensures Taken(lists, op, c) + After(lists, op)[c] == lists[c] + Added(op, c)
  {
    hide Top, Selects;
  }

  // ---------------------------------------------------------------- runs

  /** Room for the packet, which is in none of the lists. */
  predicate Enabled(lists: seq<seq<Pkt>>, limits: seq<nat>, max: nat, op: Op)
    requires |lists| == |limits| <= MAX_PREC
  {
    && InRange(op, |lists|)
    && (op.Penq? || op.PenqHead? ==>
          && Total(lists) < max && |lists[op.prec]| < limits[op.prec]
          && forall i :: 0 <= i < |lists| ==> op.p !in lists[i])
  }

  predicate Legal(lists: seq<seq<Pkt>>, limits: seq<nat>, max: nat, ops: seq<Op>)
    requires |lists| == |limits| <= MAX_PREC
    decreases |ops|
  {
    ops == [] || (Enabled(lists, limits, max, ops[0]) && Legal(After(lists, ops[0]), limits, max, ops[1..]))
  }

  predicate AllInRange(ops: seq<Op>, n: nat) { forall i :: 0 <= i < |ops| ==> InRange(ops[i], n) }

  function AfterAll(lists: seq<seq<Pkt>>, ops: seq<Op>): (r: seq<seq<Pkt>>)
    requires |lists| <= MAX_PREC && AllInRange(ops, |lists|)
    ensures |r| == |lists|
    decreases |ops|
  {
    if ops == [] then lists else AfterAll(After(lists, ops[0]), ops[1..])
  }

  function TakenAll(lists: seq<seq<Pkt>>, ops: seq<Op>, c: nat): seq<Pkt>
    requires c < |lists| <= MAX_PREC && AllInRange(ops, |lists|)
    decreases |ops|
  {
    if ops == [] then [] else Taken(lists, ops[0], c) + TakenAll(After(lists, ops[0]), ops[1..], c)
  }

  function AddedAll(ops: seq<Op>, c: nat): seq<Pkt> {
    if ops == [] then [] else Added(ops[0], c) + AddedAll(ops[1..], c)
  }

  /** Over every run, at every precedence: what came out and what is left are what was there
      and what went in. */
  lemma {:induction false} RunConserves(lists: seq<seq<Pkt>>, ops: seq<Op>, c: nat)
    requires c < |lists| <= MAX_PREC && AllInRange(ops, |lists|)
    ensures Balanced(TakenAll(lists, ops, c), AfterAll(lists, ops)[c], lists[c], AddedAll(ops, c))
    decreases |ops|
  {
    hide After, Taken, Added, Balanced;
    if ops != [] {
      Conserved(lists, ops[0], c);
      RunConserves(After(lists, ops[0]), ops[1..], c);
      BalancedThen(Taken(lists, ops[0], c), After(lists, ops[0])[c], lists[c], Added(ops[0], c),
                   TakenAll(After(lists, ops[0]), ops[1..], c), AfterAll(lists, ops)[c], AddedAll(ops[1..], c));
    } else {
      BalancedTail(lists[c]);
    }
  }

  lemma BalancedThen(t: seq<Pkt>, n: seq<Pkt>, l: seq<Pkt>, a: seq<Pkt>, t': seq<Pkt>, n': seq<Pkt>, a': seq<Pkt>)
    requires Balanced(t, n, l, a) && Balanced(t', n', n, a')
    ensures Balanced(t + t', n', l, a + a')
  {
    var mt, mn, ml, ma := multiset(t), multiset(n), multiset(l), multiset(a);
    var mt', mn', ma' := multiset(t'), multiset(n'), multiset(a');
    assert (mt + mt') + mn' == mt + (mt' + mn') == (mt + mn) + ma' == ml + (ma + ma');
    assert multiset(t + t') == mt + mt' && multiset(a + a') == ma + ma';
  }

  /** A run without the operations at the wrong end or in the middle hands the packets of every
      precedence out in the order they came in, whatever happens at the others. */
  lemma {:induction false} RunInOrder(lists: seq<seq<Pkt>>, ops: seq<Op>, c: nat)
    requires c < |lists| <= MAX_PREC && AllInRange(ops, |lists|) && forall i :: 0 <= i < |ops| ==> Fifo(ops[i])
    ensures TakenAll(lists, ops, c) + AfterAll(lists, ops)[c] == lists[c] + AddedAll(ops, c)
    decreases |ops|
  {
    hide After, Taken, Added, Fifo;
    if ops != [] {
      var next := After(lists, ops[0]);
      InOrder(lists, ops[0], c);
      RunInOrder(next, ops[1..], c);
      var t, rest := Taken(lists, ops[0], c), TakenAll(next, ops[1..], c);
      var end, a, more := AfterAll(lists, ops)[c], Added(ops[0], c), AddedAll(ops[1..], c);
      assert (t + rest) + end == t + (rest + end) == (t + next[c]) + more == (lists[c] + a) + more == lists[c] + (a + more);
    }
  }

  // ---------------------------------------------------------------- runs on the queue itself

  function Limits(q: seq<Prec>): (r: seq<nat>)
    ensures |r| == |q|
  {
    seq(|q|, i requires 0 <= i < |q| => q[i].max)
  }

  /** The packet that an operation adds. */
  ghost function Adds(op: Op): set<Pkt> { if op.Penq? || op.PenqHead? then {op.p} else {} }

  ghost predicate Loose(x: Pkt)
    reads x
  {
    x.link == null && x.home == NOWHERE
  }

  lemma LimitsKept(a: seq<Prec>, b: seq<Prec>)
    requires SameMax(a, b)
    ensures Limits(a) == Limits(b)
  {
  }

  lemma {:induction false} WithoutAt(list: seq<Pkt>, p: Pkt, k: nat)
    requires k < |list| && list[k] == p && forall i :: 0 <= i < k ==> list[i] != p
    ensures Without(list, p) == list[..k] + list[k + 1..]
    decreases k
  {
    if k > 0 {
      WithoutAt(list[1..], p, k - 1);
      assert list[..k] == [list[0]] + list[1..][..k - 1];
    }
  }

  lemma {:induction false} TopIs(lists: seq<seq<Pkt>>, bmp: Option<bv32>, c: nat)
    requires c < |lists| <= MAX_PREC && lists[c] != [] && Selects(bmp, c)
    requires forall i :: c < i < |lists| && Selects(bmp, i) ==> lists[i] == []
    ensures Top(lists, bmp, |lists|) == c
  {
    hide Selects, Top;
    var t := Top(lists, bmp, |lists|);
    assert t >= c;
  }

  lemma BottomIs(lists: seq<seq<Pkt>>, c: nat)
    requires c < |lists| && lists[c] != [] && forall i :: 0 <= i < c ==> lists[i] == []
    ensures Bottom(lists, 0) == c
  {
    hide Bottom;
    var b := Bottom(lists, 0);
    assert 0 <= b <= c;
  }

  /** One list of several. */
  function Only(n: nat, c: nat, s: seq<Pkt>): (r: seq<seq<Pkt>>)
    ensures |r| == n
  {
    seq(n, i => if i == c then s else [])
  }

  ghost predicate Ready(pq: PktQ)
    reads pq, pq.pkts
  {
    pq.Valid() && pq.Tidy()
  }

  /** What came out of the lists is what the operation takes. */
  ghost predicate TookOut(taken: seq<seq<Pkt>>, lists: seq<seq<Pkt>>, op: Op)
    requires |lists| <= MAX_PREC && InRange(op, |lists|)
  {
    |taken| == |lists| && forall c :: 0 <= c < |lists| ==> taken[c] == Taken(lists, op, c)
  }

  method DoAdd(pq: PktQ, op: Op) returns (taken: seq<seq<Pkt>>)
    requires Ready(pq) && (op.Penq? || op.PenqHead?) && Enabled(pq.lists, Limits(pq.q), pq.max, op)
    requires op.p in pq.pkts || Loose(op.p)
    modifies pq`q, pq`hiPrec, pq`len, pq`lists, pq`pkts, pq.pkts, op.p
    ensures Ready(pq) && SameMax(pq.q, old(pq.q)) && pq.lists == After(old(pq.lists), op) && pq.pkts == old(pq.pkts) + {op.p}
    ensures TookOut(taken, old(pq.lists), op)
  {
    hide Total;
    pq.Open(op.prec);
    assert op.p in pq.pkts ==> Placed(op.p, pq.lists);
    taken := Only(pq.numPrec, 0, []);
    match op
    case Penq(prec, p) => pq.Penq(prec, p);
    case PenqHead(prec, p) => pq.PenqHead(prec, p);
  }

  method DoTake(pq: PktQ, op: Op) returns (taken: seq<seq<Pkt>>)
    requires Ready(pq) && (op.Pdeq? || op.PdeqTail?) && op.prec < pq.numPrec
    modifies pq`q, pq`len, pq`lists, pq.pkts
    ensures Ready(pq) && SameMax(pq.q, old(pq.q)) && pq.lists == After(old(pq.lists), op)
    ensures TookOut(taken, old(pq.lists), op)
  {
    hide Total, PktQ.Tidy, TookOut, After, Only;
    ghost var lists := pq.lists;
    OneOut(lists, op);
    var p: Pkt?;
    if op.Pdeq? {
      p := pq.Pdeq(op.prec);
    } else {
      p := pq.PdeqTail(op.prec);
    }
    taken := Only(pq.numPrec, op.prec, if p == null then [] else [p]);
  }

  lemma OneOut(lists: seq<seq<Pkt>>, op: Op)
    requires (op.Pdeq? || op.PdeqTail?) && op.prec < |lists| <= MAX_PREC
    ensures var list := lists[op.prec];
            && (list == [] ==> After(lists, op) == lists && TookOut(Only(|lists|, op.prec, []), lists, op))
            && (list != [] && op.Pdeq? ==>
                  After(lists, op) == lists[op.prec := list[1..]] && TookOut(Only(|lists|, op.prec, [list[0]]), lists, op))
            && (list != [] && op.PdeqTail? ==>
                  After(lists, op) == lists[op.prec := list[..|list| - 1]] && TookOut(Only(|lists|, op.prec, [LastOf(list)]), lists, op))
  {
  }

  method DoDelete(pq: PktQ, prec: nat, p: Pkt) returns (taken: seq<seq<Pkt>>)
    requires Ready(pq) && prec < pq.numPrec
    modifies pq`q, pq`len, pq`lists, pq.pkts
    ensures Ready(pq) && SameMax(pq.q, old(pq.q)) && pq.lists == After(old(pq.lists), Pdel(prec, p))
    ensures TookOut(taken, old(pq.lists), Pdel(prec, p))
  {
    hide Total, Without, TookOut, Describes, Only;
    pq.Open(prec);
    ghost var lists := pq.lists;
    var found;
    ghost var k;
    found, k := pq.Pdel(p, prec);
    Deleted(lists, prec, p, k);
    taken := Only(pq.numPrec, prec, if found then [p] else []);
  }

  lemma Deleted(lists: seq<seq<Pkt>>, prec: nat, p: Pkt, k: nat)
    requires prec < |lists| <= MAX_PREC && forall i, j :: 0 <= i < j < |lists[prec]| ==> lists[prec][i] != lists[prec][j]
    requires p in lists[prec] ==> k < |lists[prec]| && lists[prec][k] == p
    ensures lists[prec := Without(lists[prec], p)]
            == if p in lists[prec] then lists[prec := lists[prec][..k] + lists[prec][k + 1..]] else lists
    ensures TookOut(Only(|lists|, prec, if p in lists[prec] then [p] else []), lists, Pdel(prec, p))
  {
    hide Without;
    if p in lists[prec] {
      WithoutAt(lists[prec], p, k);
    } else {
      WithoutOne(lists[prec], p);
    }
  }

  method DoFlush(pq: PktQ, op: Op) returns (taken: seq<seq<Pkt>>)
    requires Ready(pq) && (op.Flush? || op.Pflush?) && InRange(op, pq.numPrec)
    modifies pq`q, pq`len, pq`lists, pq.pkts
    ensures Ready(pq) && SameMax(pq.q, old(pq.q)) && pq.lists == After(old(pq.lists), op)
    ensures TookOut(taken, old(pq.lists), op)
  {
    hide Total;
    if op.Flush? {
      pq.EmptyIffZero();
      var empty := pq.len == 0;
      taken := pq.Flush();
      if empty {
        taken := Only(pq.numPrec, 0, []);
      }
    } else {
      var freed := pq.Pflush(op.prec);
      taken := Only(pq.numPrec, op.prec, freed);
    }
  }

  method DoHighest(pq: PktQ, bmp: Option<bv32>) returns (taken: seq<seq<Pkt>>)
    requires Ready(pq)
    modifies pq`q, pq`hiPrec, pq`len, pq`lists, pq.pkts
    ensures Ready(pq) && SameMax(pq.q, old(pq.q)) && pq.lists == After(old(pq.lists), Deq(bmp))
    ensures TookOut(taken, old(pq.lists), Deq(bmp))
  {
    hide Total, Top, Allowed, TookOut, After, Only, PktQ.Tidy;
    ghost var lists := pq.lists;
    var p: Pkt?, prec;
    if bmp == None {
      p, prec := pq.Deq();
    } else {
      p, prec := pq.Mdeq(bmp.value);
    }
    if p == null {
      NoneOut(lists, bmp);
      taken := Only(pq.numPrec, 0, []);
    } else {
      HighestOut(lists, bmp, prec);
      taken := Only(pq.numPrec, prec, [p]);
    }
  }

  lemma HighestOut(lists: seq<seq<Pkt>>, bmp: Option<bv32>, prec: nat)
    requires prec < |lists| <= MAX_PREC && lists[prec] != [] && Selects(bmp, prec)
    requires forall i :: prec < i < |lists| && Selects(bmp, i) ==> lists[i] == []
    ensures After(lists, Deq(bmp)) == lists[prec := lists[prec][1..]]
    ensures TookOut(Only(|lists|, prec, [lists[prec][0]]), lists, Deq(bmp))
  {
    hide Top, Selects;
    TopIs(lists, bmp, prec);
  }

  lemma NoneOut(lists: seq<seq<Pkt>>, bmp: Option<bv32>)
    requires |lists| <= MAX_PREC && forall i :: 0 <= i < |lists| && Selects(bmp, i) ==> lists[i] == []
    ensures After(lists, Deq(bmp)) == lists && TookOut(Only(|lists|, 0, []), lists, Deq(bmp))
  {
    hide Top, Selects;
    assert Top(lists, bmp, |lists|) == -1;
  }

  method DoLowest(pq: PktQ) returns (taken: seq<seq<Pkt>>)
    requires Ready(pq)
    modifies pq`q, pq`len, pq`lists, pq.pkts
    ensures Ready(pq) && SameMax(pq.q, old(pq.q)) && pq.lists == After(old(pq.lists), DeqTail)
    ensures TookOut(taken, old(pq.lists), DeqTail)
  {
    hide Total, Bottom;
    ghost var lists := pq.lists;
    var p, prec := pq.DeqTail();
    if p == null {
      taken := Only(pq.numPrec, 0, []);
    } else {
      BottomIs(lists, prec);
      taken := Only(pq.numPrec, prec, [p]);
    }
  }

  /** One operation on the queue. */
  method Do(pq: PktQ, op: Op) returns (taken: seq<seq<Pkt>>)
    requires Ready(pq) && Enabled(pq.lists, Limits(pq.q), pq.max, op)
    requires forall x :: x in Adds(op) ==> x in pq.pkts || Loose(x)
    modifies pq`q, pq`hiPrec, pq`len, pq`lists, pq`pkts, pq.pkts, Adds(op)
    ensures Ready(pq) && SameMax(pq.q, old(pq.q)) && pq.lists == After(old(pq.lists), op) && pq.pkts == old(pq.pkts) + Adds(op)
    ensures TookOut(taken, old(pq.lists), op) && |taken| == pq.numPrec
  {
    hide After, Total;
    match op
    case Penq(_, _) => taken := DoAdd(pq, op);
    case PenqHead(_, _) => taken := DoAdd(pq, op);
    case Pdeq(_) => taken := DoTake(pq, op);
    case PdeqTail(_) => taken := DoTake(pq, op);
    case Pdel(prec, p) => taken := DoDelete(pq, prec, p);
    case Pflush(_) => taken := DoFlush(pq, op);
    case Flush => taken := DoFlush(pq, op);
    case Deq(bmp) => taken := DoHighest(pq, bmp);
    case DeqTail => taken := DoLowest(pq);
  }

  /** Any legal run of operations on packets that are free or known to the queue: the queue goes
      through the lists of the run, and what comes out of each precedence is what the run takes. */
  method Run(pq: PktQ, ops: seq<Op>, ghost packets: set<Pkt>) returns (taken: seq<seq<Pkt>>)
    requires Ready(pq) && |pq.lists| == |pq.q| <= MAX_PREC && Legal(pq.lists, Limits(pq.q), pq.max, ops)
    requires forall i :: 0 <= i < |ops| ==> Adds(ops[i]) <= packets
    requires forall x :: x in packets ==> x in pq.pkts || Loose(x)
    modifies pq, pq.pkts, packets
    ensures Ready(pq) && AllInRange(ops, pq.numPrec) && pq.lists == AfterAll(old(pq.lists), ops)
    ensures |taken| == pq.numPrec && forall c :: 0 <= c < pq.numPrec ==> taken[c] == TakenAll(old(pq.lists), ops, c)
    decreases |ops|
  {
    hide After, Total, TookOut, Adds, Enabled, InRange, PktQ.Tidy, PktQ.Valid, Joined, Limits, Taken;
    LegalInRange(pq.lists, Limits(pq.q), pq.max, ops);
    SameNumber(pq);
    if ops == [] {
      taken := Only(pq.numPrec, 0, []);
    } else {
      ghost var q0, lists, known := pq.q, pq.lists, pq.pkts;
      assert Adds(ops[0]) <= packets;
      var t := Do(pq, ops[0]);
      LimitsKept(pq.q, q0);
      forall x | x in packets ensures x in pq.pkts || Loose(x) {
        if x !in pq.pkts {
          assert x !in known && x !in Adds(ops[0]);
          assert old(Loose(x)) && x.link == old(x.link) && x.home == old(x.home);
        }
      }
      var rest := Run(pq, ops[1..], packets);
      taken := Joined(t, rest);
      forall c | 0 <= c < pq.numPrec ensures taken[c] == TakenAll(lists, ops, c) { TookOutOf(t, lists, ops[0], c); }
    }
  }

  lemma SameNumber(pq: PktQ)
    requires pq.Valid()
    ensures |pq.lists| == |pq.q| == pq.numPrec <= MAX_PREC
  {
  }

  function Joined(a: seq<seq<Pkt>>, b: seq<seq<Pkt>>): (r: seq<seq<Pkt>>)
    requires |a| == |b|
    ensures |r| == |a| && forall c :: 0 <= c < |a| ==> r[c] == a[c] + b[c]
  {
    seq(|a|, c requires 0 <= c < |a| => a[c] + b[c])
  }

  lemma TookOutOf(t: seq<seq<Pkt>>, lists: seq<seq<Pkt>>, op: Op, c: nat)
    requires c < |lists| <= MAX_PREC && InRange(op, |lists|) && TookOut(t, lists, op)
    ensures |t| == |lists| && t[c] == Taken(lists, op, c)
  {
  }

  lemma {:induction false} LegalInRange(lists: seq<seq<Pkt>>, limits: seq<nat>, max: nat, ops: seq<Op>)
    requires |lists| == |limits| <= MAX_PREC && Legal(lists, limits, max, ops)
    ensures AllInRange(ops, |lists|)
    decreases |ops|
  {
    hide After, Total;
    if ops != [] {
      LegalInRange(After(lists, ops[0]), limits, max, ops[1..]);
      assert forall i :: 1 <= i < |ops| ==> ops[i] == ops[1..][i - 1];
    }
  }

  /** From a new queue on: whatever the interleaving, each precedence hands out a prefix of what
      was put into it. */
  method Session(num: nat, max: nat, ops: seq<Op>, ghost packets: set<Pkt>) returns (taken: seq<seq<Pkt>>)
    requires 0 < num <= MAX_PREC && Legal(seq(num, _ => []), seq(num, _ => max), max, ops)
    requires forall i :: 0 <= i < |ops| ==> Adds(ops[i]) <= packets && Fifo(ops[i])
    requires forall x :: x in packets ==> Loose(x)
    modifies packets
    ensures |taken| == num && forall c :: 0 <= c < num ==> taken[c] <= AddedAll(ops, c)
  {
    hide Legal, Adds, Fifo, AfterAll, TakenAll, AddedAll, Total, PktQ.Valid, PktQ.Tidy;
    var pq := new PktQ(num, max);
    SameNumber(pq);
    assert Limits(pq.q) == seq(num, _ => max);
    taken := Run(pq, ops, packets);
    forall c | 0 <= c < num ensures taken[c] <= AddedAll(ops, c) {
      RunInOrder(seq(num, _ => []), ops, c);
      assert [] + AddedAll(ops, c) == AddedAll(ops, c);
    }
  }
}
