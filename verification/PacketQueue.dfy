/** The multi-precedence packet queue: singly linked packets, one list per precedence, a
    cached total length and an upper bound on the highest non-empty precedence. */
module PacketQueue {

  const NOWHERE: int := -1

  /** Precedences are selected by the bits of a word. */
  const MAX_PREC: nat := 32

  class Pkt {
    var link: Pkt?
    ghost var home: int        // the precedence it is queued at, or NOWHERE

    constructor ()
      ensures link == null && home == NOWHERE
    {
      link, home := null, NOWHERE;
    }
  }

  /** The limits of the lists are the same. */
  predicate SameMax(a: seq<Prec>, b: seq<Prec>) {
    |a| == |b| && forall i :: 0 <= i < |a| ==> a[i].max == b[i].max
  }

  /** One list of the queue. */
  datatype Prec = Prec(head: Pkt?, tail: Pkt?, len: nat, max: nat)

  function At(list: seq<Pkt>, i: nat): Pkt? { if i < |list| then list[i] else null }

  function LastOf(list: seq<Pkt>): Pkt? { if list == [] then null else list[|list| - 1] }

  /** `list` is what one finds by following links from `head`; no packet occurs twice, and
      all of them are queued at precedence `home`. */
  ghost predicate Chained(head: Pkt?, list: seq<Pkt>, home: int)
    reads list
  {
    && head == At(list, 0)
    && (forall i :: 0 <= i < |list| ==> list[i].link == At(list, i + 1))
    && (forall i :: 0 <= i < |list| ==> list[i].home == home)
    && (forall i, j :: 0 <= i < j < |list| ==> list[i] != list[j])
  }

  /** The struct of one precedence describes its list: head, tail and length. */
  ghost predicate Describes(d: Prec, list: seq<Pkt>, p: nat)
    reads list
  {
    Chained(d.head, list, p) && d.tail == LastOf(list) && d.len == |list|
  }

  predicate Allowed(bmp: bv32, prec: nat)
    requires prec < MAX_PREC
  {
    (bmp >> prec) & 1 == 1
  }

  /** The bits of a precedence bitmap, lowest first. */
  function BitOf(prec: nat): bv32
    requires prec < MAX_PREC
  {
    if prec < 8 then [0x1, 0x2, 0x4, 0x8, 0x10, 0x20, 0x40, 0x80][prec]
    else if prec < 16 then [0x100, 0x200, 0x400, 0x800, 0x1000, 0x2000, 0x4000, 0x8000][prec - 8]
    else if prec < 24 then [0x1_0000, 0x2_0000, 0x4_0000, 0x8_0000, 0x10_0000, 0x20_0000, 0x40_0000, 0x80_0000][prec - 16]
    else [0x100_0000, 0x200_0000, 0x400_0000, 0x800_0000, 0x1000_0000, 0x2000_0000, 0x4000_0000, 0x8000_0000][prec - 24]
  }

  /** Precedence `p` is bit `p` of the bitmap. */
  lemma AllowedIs(bmp: bv32, prec: nat)
    requires prec < MAX_PREC
    ensures Allowed(bmp, prec) <==> bmp & BitOf(prec) != 0
  {
    if prec < 8 {
      AllowedFirst(bmp, prec);
    } else if prec < 16 {
      AllowedSecond(bmp, prec);
    } else if prec < 24 {
      AllowedThird(bmp, prec);
    } else {
      AllowedFourth(bmp, prec);
    }
  }

  lemma AllowedFirst(bmp: bv32, prec: nat)
    requires 0 <= prec < 8
    ensures Allowed(bmp, prec) <==> bmp & BitOf(prec) != 0
  {
    if prec == 0 {} else if prec == 1 {} else if prec == 2 {} else if prec == 3 {}
    else if prec == 4 {} else if prec == 5 {} else if prec == 6 {} else {}
  }

  lemma AllowedSecond(bmp: bv32, prec: nat)
    requires 8 <= prec < 16
    ensures Allowed(bmp, prec) <==> bmp & BitOf(prec) != 0
  {
    if prec == 8 {} else if prec == 9 {} else if prec == 10 {} else if prec == 11 {}
    else if prec == 12 {} else if prec == 13 {} else if prec == 14 {} else {}
  }

  lemma AllowedThird(bmp: bv32, prec: nat)
    requires 16 <= prec < 24
    ensures Allowed(bmp, prec) <==> bmp & BitOf(prec) != 0
  {
    if prec == 16 {} else if prec == 17 {} else if prec == 18 {} else if prec == 19 {}
    else if prec == 20 {} else if prec == 21 {} else if prec == 22 {} else {}
  }

  lemma AllowedFourth(bmp: bv32, prec: nat)
    requires 24 <= prec < 32
    ensures Allowed(bmp, prec) <==> bmp & BitOf(prec) != 0
  {
    if prec == 24 {} else if prec == 25 {} else if prec == 26 {} else if prec == 27 {}
    else if prec == 28 {} else if prec == 29 {} else if prec == 30 {} else {}
  }

  /** The sum of the lengths of the selected lists among the first `n`. */
  function Selected(lists: seq<seq<Pkt>>, bmp: bv32, n: nat): nat
    requires n <= |lists| && n <= MAX_PREC
  {
    if n == 0 then 0
    else Selected(lists, bmp, n - 1) + if Allowed(bmp, n - 1) then |lists[n - 1]| else 0
  }

  lemma {:induction false} SelectedEmpty(lists: seq<seq<Pkt>>, bmp: bv32, n: nat, m: nat)
    requires n <= m <= |lists| && m <= MAX_PREC && forall p :: n <= p < m ==> lists[p] == []
    ensures Selected(lists, bmp, m) == Selected(lists, bmp, n)
    decreases m
  {
    hide Allowed;
    if n < m { SelectedEmpty(lists, bmp, n, m - 1); }
  }

  function Total(lists: seq<seq<Pkt>>): nat {
    if lists == [] then 0 else Total(lists[..|lists| - 1]) + |lists[|lists| - 1]|
  }

  lemma {:induction false} TotalUpdate(lists: seq<seq<Pkt>>, p: nat, list: seq<Pkt>)
    requires p < |lists|
    ensures Total(lists[p := list]) == Total(lists) - |lists[p]| + |list|
    decreases |lists|
  {
    var k := |lists| - 1;
    if p < k {
      assert lists[p := list][..k] == lists[..k][p := list];
      TotalUpdate(lists[..k], p, list);
    } else {
      assert lists[p := list][..k] == lists[..k];
    }
  }

  lemma {:induction false} TotalZero(lists: seq<seq<Pkt>>)
    ensures Total(lists) == 0 <==> forall p :: 0 <= p < |lists| ==> lists[p] == []
    decreases |lists|
  {
    if lists != [] {
      var k := |lists| - 1;
      TotalZero(lists[..k]);
      assert forall p :: 0 <= p < k ==> lists[..k][p] == lists[p];
    }
  }

  /** A packet is at home in the list it is in, or it is nowhere and its link is clear. */
  ghost predicate Placed(x: Pkt, lists: seq<seq<Pkt>>)
    reads x
  {
    if x.home == NOWHERE then x.link == null else 0 <= x.home < |lists| && x in lists[x.home]
  }

  class PktQ {
    const numPrec: nat
    var q: seq<Prec>
    var hiPrec: nat
    var len: nat
    var max: nat
    ghost var lists: seq<seq<Pkt>>
    ghost var pkts: set<Pkt>

    ghost predicate Known(list: seq<Pkt>)
      reads this`pkts
    {
      forall i :: 0 <= i < |list| ==> list[i] in pkts
    }

    ghost predicate Valid()
      reads this, pkts
    {
      && |q| == |lists| == numPrec <= MAX_PREC && hiPrec < numPrec
      && (forall p :: 0 <= p < numPrec ==> Known(lists[p]) && Describes(q[p], lists[p], p))
      && (forall p :: hiPrec < p < numPrec ==> lists[p] == [])
      && len == Total(lists)
    }

    /** No packet that was ever queued is left with a stale link. */
    ghost predicate Tidy()
      reads this`lists, this`pkts, pkts
    {
      forall x :: x in pkts ==> Placed(x, lists)
    }

    constructor (num: nat, maxLen: nat)
      requires 0 < num <= MAX_PREC
      ensures Tidy() && pkts == {}
      ensures Valid() && numPrec == num && max == maxLen && lists == seq(num, _ => []) && len == 0
      ensures forall p :: 0 <= p < num ==> q[p].max == maxLen
    {
      numPrec, max, hiPrec, len := num, maxLen, 0, 0;
      q := seq(num, _ => Prec(null, null, 0, maxLen));
      lists, pkts := seq(num, _ => []), {};
      new;
      TotalZero(lists);
    }

    /** A packet queued elsewhere, or not at all, is not in list `p`. */
    lemma NotIn(x: Pkt, p: nat)
      requires Valid() && p < numPrec && x.home != p
      ensures x !in lists[p]
    {
      assert Describes(q[p], lists[p], p);
    }

    /** Every list but that of precedence `p` is as its struct says. */
    ghost predicate Others(p: nat)
      requires |q| == |lists| == numPrec
      reads this`q, this`lists, this`pkts, pkts
    {
      forall i :: 0 <= i < numPrec && i != p ==> Known(lists[i]) && Describes(q[i], lists[i], i)
    }

    /** Puts back the struct of precedence `p`, which now describes `list`. */
    method Rebind(p: nat, d: Prec, ghost list: seq<Pkt>)
      requires |q| == |lists| == numPrec <= MAX_PREC && hiPrec < numPrec && p < numPrec
      requires Others(p) && Known(list) && Describes(d, list, p)
      requires forall i :: hiPrec < i < numPrec ==> if i == p then list == [] else lists[i] == []
      requires len + |lists[p]| == Total(lists) + |list|
      modifies this`q, this`lists
      ensures Valid() && lists == old(lists)[p := list] && q == old(q)[p := d]
    {
      hide Describes, Known;
      TotalUpdate(lists, p, list);
      q := q[p := d];
      lists := lists[p := list];
    }

    ghost method Admit(p: Pkt)
      requires Valid()
      modifies this`pkts
      ensures Valid() && pkts == old(pkts) + {p}
    {
      hide Describes;
      pkts := pkts + {p};
    }

    lemma KnownMore(list: seq<Pkt>, p: Pkt)
      requires p in pkts && forall i :: 0 <= i < |list| ==> list[i] in pkts
      ensures Known(list + [p]) && Known([p] + list)
    {
    }

    /** What validity says about one list. */
    lemma Open(p: nat)
      requires Valid() && p < numPrec
      ensures Known(lists[p]) && (forall i :: 0 <= i < |lists[p]| ==> lists[p][i] in pkts)
      ensures q[p].len == |lists[p]| && q[p].tail == LastOf(lists[p]) && q[p].head == At(lists[p], 0)
      ensures forall i :: 0 <= i < |lists[p]| ==> lists[p][i].link == At(lists[p], i + 1)
      ensures forall i :: 0 <= i < |lists[p]| ==> lists[p][i].home == p
      ensures forall i, j :: 0 <= i < j < |lists[p]| ==> lists[p][i] != lists[p][j]
    {
      assert Describes(q[p], lists[p], p);
    }

    /** Moving `p` into or out of list `prec` leaves every packet placed. */
    lemma TidyStep(before: seq<seq<Pkt>>, prec: nat, p: Pkt)
      requires Valid() && prec < numPrec == |before| && forall i :: 0 <= i < numPrec && i != prec ==> lists[i] == before[i]
      requires forall x :: x in pkts && x != p && x !in before[prec] ==> Placed(x, before)
      requires forall x :: x in before[prec] && x != p ==> x in lists[prec]
      requires Placed(p, lists)
      ensures Tidy()
    {
      hide Describes, Known;
      Open(prec);
      forall x | x in pkts ensures Placed(x, lists) {
        if x in before[prec] && x != p {
          var i :| 0 <= i < |lists[prec]| && lists[prec][i] == x;
          assert x.home == prec;
        }
      }
    }

    // -------------------------------------------------------------- link surgery on one list

    method LinkTail(prec: nat, p: Pkt) returns (d: Prec)
      requires Valid() && prec < numPrec && p in pkts && p.link == null && p.home == NOWHERE
      modifies pkts
      ensures Others(prec) && Describes(d, lists[prec] + [p], prec) && Known(lists[prec] + [p]) && d.max == q[prec].max
      ensures forall x :: x in pkts && x != p && x !in lists[prec] ==> x.link == old(x.link) && x.home == old(x.home)
    {
      hide Describes, Known, Total;
      ghost var list := lists[prec];
      d := q[prec];
      Open(prec);
      forall i | 0 <= i < numPrec ensures p !in lists[i] { NotIn(p, i); }
      forall i | 0 <= i < numPrec && i != prec ensures d.tail !in lists[i] {
        if d.tail != null { NotIn(d.tail, i); }
      }
      if d.head != null {
        d.tail.link := p;
      } else {
        d := d.(head := p);
      }
      p.home := prec;
      d := d.(tail := p, len := d.len + 1);
      Appended(d, list, p, prec);
      KnownMore(list, p);
    }

    method LinkHead(prec: nat, p: Pkt) returns (d: Prec)
      requires Valid() && prec < numPrec && p in pkts && p.link == null && p.home == NOWHERE
      modifies pkts
      ensures Others(prec) && Describes(d, [p] + lists[prec], prec) && Known([p] + lists[prec]) && d.max == q[prec].max
      ensures forall x :: x in pkts && x != p && x !in lists[prec] ==> x.link == old(x.link) && x.home == old(x.home)
    {
      hide Describes, Known, Total;
      ghost var list := lists[prec];
      d := q[prec];
      Open(prec);
      forall i | 0 <= i < numPrec ensures p !in lists[i] { NotIn(p, i); }
      if d.head == null {
        d := d.(tail := p);
      }
      p.link := d.head;
      p.home := prec;
      d := d.(head := p, len := d.len + 1);
      Prepended(d, list, p, prec);
      KnownMore(list, p);
    }

    method UnlinkHead(prec: nat) returns (p: Pkt, d: Prec)
      requires Valid() && prec < numPrec && lists[prec] != []
      modifies pkts
      ensures p == lists[prec][0] && p.link == null && p.home == NOWHERE
      ensures Others(prec) && Describes(d, lists[prec][1..], prec) && Known(lists[prec][1..]) && d.max == q[prec].max
      ensures forall x :: x in pkts && x !in lists[prec] ==> x.link == old(x.link) && x.home == old(x.home)
    {
      hide Describes, Known, Total;
      ghost var list := lists[prec];
      d := q[prec];
      Open(prec);
      p := d.head;
      forall i | 0 <= i < numPrec && i != prec ensures p !in lists[i] { NotIn(p, i); }
      d := d.(head := p.link);
      if d.head == null {
        d := d.(tail := null);
      }
      d := d.(len := d.len - 1);
      p.link := null;
      p.home := NOWHERE;
      Beheaded(d, list, prec);
      KnownSub(list, list[1..]);
    }

    /** Walks from the head to the packet before the tail. */
    method UnlinkTail(prec: nat) returns (p: Pkt, d: Prec)
      requires Valid() && prec < numPrec && lists[prec] != []
      modifies pkts
      ensures p == LastOf(lists[prec]) && p.link == null && p.home == NOWHERE
      ensures var n := |lists[prec]| - 1;
              Others(prec) && Describes(d, lists[prec][..n], prec) && Known(lists[prec][..n]) && d.max == q[prec].max
      ensures forall x :: x in pkts && x !in lists[prec] ==> x.link == old(x.link) && x.home == old(x.home)
    {
      hide Describes, Known, Total;
      ghost var list, n := lists[prec], |lists[prec]| - 1;
      d := q[prec];
      Open(prec);
      p := d.head;
      var prev: Pkt? := null;
      ghost var k := 0;
      while p != d.tail
        invariant k <= n && p == list[k] && prev == if k > 0 then list[k - 1] else null
        decreases n - k
      {
        prev, p, k := p, p.link, k + 1;
      }
      assert k == n;
      forall i | 0 <= i < numPrec && i != prec ensures p !in lists[i] && prev !in lists[i] {
        NotIn(p, i);
        if prev != null { NotIn(prev, i); }
      }
      d := Curtail(d, prev, p, list, prec);
      KnownSub(list, list[..n]);
    }

    /** Takes out the packet after `prev`, the k-th of its list. */
    method UnlinkAfter(prec: nat, prev: Pkt, p: Pkt, ghost k: nat) returns (d: Prec)
      requires Valid() && prec < numPrec && 0 < k < |lists[prec]| && p == lists[prec][k] && prev == lists[prec][k - 1]
      modifies pkts
      ensures p.link == null && p.home == NOWHERE
      ensures var rest := lists[prec][..k] + lists[prec][k + 1..];
              Others(prec) && Describes(d, rest, prec) && Known(rest) && d.max == q[prec].max
      ensures forall x :: x in pkts && x !in lists[prec] ==> x.link == old(x.link) && x.home == old(x.home)
    {
      hide Describes, Known, Total;
      ghost var list := lists[prec];
      d := q[prec];
      Open(prec);
      forall i | 0 <= i < numPrec && i != prec ensures p !in lists[i] && prev !in lists[i] {
        NotIn(p, i);
        NotIn(prev, i);
      }
      d := Bypass(d, prev, p, list, k, prec);
      KnownWithout(list, k);
    }

    lemma KnownWithout(list: seq<Pkt>, k: nat)
      requires k < |list| && forall i :: 0 <= i < |list| ==> list[i] in pkts
      ensures Known(list[..k] + list[k + 1..])
    {
      var c := list[..k] + list[k + 1..];
      assert forall i :: 0 <= i < |c| ==> c[i] == list[if i < k then i else i + 1];
    }

    lemma KnownSub(list: seq<Pkt>, part: seq<Pkt>)
      requires (forall i :: 0 <= i < |list| ==> list[i] in pkts) && forall i :: 0 <= i < |part| ==> part[i] in list
      ensures Known(part)
    {
    }
    // -------------------------------------------------------------- one precedence

    /** Counts one more packet at a precedence. */
    method Enlist(prec: nat, d: Prec, ghost list: seq<Pkt>)
      requires |q| == |lists| == numPrec <= MAX_PREC && hiPrec < numPrec && prec < numPrec && len == Total(lists)
      requires forall i :: hiPrec < i < numPrec ==> lists[i] == []
      requires Others(prec) && Known(list) && Describes(d, list, prec) && |list| == |lists[prec]| + 1
      modifies this`q, this`lists, this`len, this`hiPrec
      ensures Valid() && lists == old(lists)[prec := list] && q == old(q)[prec := d]
    {
      hide Describes, Known, Total;
      len := len + 1;
      if hiPrec < prec {
        hiPrec := prec;
      }
      Rebind(prec, d, list);
    }

    /** Appends a packet. */
    method Penq(prec: nat, p: Pkt)
      requires Valid() && prec < numPrec && p.link == null && p.home == NOWHERE
      requires len < max && q[prec].len < q[prec].max
      modifies this`q, this`hiPrec, this`len, this`lists, this`pkts, pkts, p
      ensures Valid() && lists == old(lists)[prec := old(lists)[prec] + [p]]
      ensures SameMax(q, old(q)) && (old(Tidy()) ==> Tidy())
      ensures pkts == old(pkts) + {p}
    {
      hide Describes, Known, Total;
      Admit(p);
      var d := LinkTail(prec, p);
      Enlist(prec, d, lists[prec] + [p]);
      if old(Tidy()) {
        AtHome(prec, |lists[prec]| - 1);
        TidyStep(old(lists), prec, p);
      }
    }

    /** Puts a packet in front. */
    method PenqHead(prec: nat, p: Pkt)
      requires Valid() && prec < numPrec && p.link == null && p.home == NOWHERE
      requires len < max && q[prec].len < q[prec].max
      modifies this`q, this`hiPrec, this`len, this`lists, this`pkts, pkts, p
      ensures Valid() && lists == old(lists)[prec := [p] + old(lists)[prec]]
      ensures SameMax(q, old(q)) && (old(Tidy()) ==> Tidy())
      ensures pkts == old(pkts) + {p}
    {
      hide Describes, Known, Total;
      Admit(p);
      var d := LinkHead(prec, p);
      Enlist(prec, d, [p] + lists[prec]);
      if old(Tidy()) {
        AtHome(prec, 0);
        TidyStep(old(lists), prec, p);
      }
    }

    lemma AtHome(prec: nat, i: nat)
      requires Valid() && prec < numPrec && i < |lists[prec]|
      ensures Placed(lists[prec][i], lists)
    {
      hide Describes, Known;
      Open(prec);
    }

    /** A list is empty exactly when its head is NULL; the total covers it. */
    lemma HeadNull(prec: nat)
      requires Valid() && prec < numPrec
      ensures q[prec].head == null <==> lists[prec] == []
      ensures len >= |lists[prec]|
    {
      Open(prec);
      TotalUpdate(lists, prec, []);
    }

    /** Takes the oldest packet. */
    method Pdeq(prec: nat) returns (p: Pkt?)
      requires Valid() && prec < numPrec
      modifies this`q, this`len, this`lists, pkts
      ensures Valid() && SameMax(q, old(q)) && (old(Tidy()) ==> Tidy())
      ensures old(lists)[prec] == [] ==> p == null && lists == old(lists) && q == old(q)
      ensures old(lists)[prec] != [] ==>
                && p == old(lists)[prec][0] && p.link == null && p.home == NOWHERE
                && lists == old(lists)[prec := old(lists)[prec][1..]]
    {
      hide Describes, Known, Total;
      HeadNull(prec);
      if q[prec].head == null {
        return null;
      }
      var d;
      p, d := UnlinkHead(prec);
      len := len - 1;
      Rebind(prec, d, lists[prec][1..]);
      if old(Tidy()) { TidyStep(old(lists), prec, p); }
    }

    /** Takes the youngest packet. */
    method PdeqTail(prec: nat) returns (p: Pkt?)
      requires Valid() && prec < numPrec
      modifies this`q, this`len, this`lists, pkts
      ensures Valid() && SameMax(q, old(q)) && (old(Tidy()) ==> Tidy())
      ensures old(lists)[prec] == [] ==> p == null && lists == old(lists) && q == old(q)
      ensures old(lists)[prec] != [] ==>
                && p == LastOf(old(lists)[prec]) && p.link == null && p.home == NOWHERE
                && lists == old(lists)[prec := old(lists)[prec][..|old(lists)[prec]| - 1]]
    {
      hide Describes, Known, Total;
      HeadNull(prec);
      if q[prec].head == null {
        return null;
      }
      var d;
      p, d := UnlinkTail(prec);
      len := len - 1;
      Rebind(prec, d, lists[prec][..|lists[prec]| - 1]);
      if old(Tidy()) { TidyStep(old(lists), prec, p); }
    }

    /** Walks to the packet before `pktbuf`. */
    method FindBefore(prec: nat, pktbuf: Pkt) returns (p: Pkt?, ghost k: nat)
      requires Valid() && prec < numPrec && q[prec].head != pktbuf
      ensures p == null ==> pktbuf !in lists[prec]
      ensures p != null ==> k + 1 < |lists[prec]| && lists[prec][k] == p && lists[prec][k + 1] == pktbuf
    {
      hide Describes, Known;
      Open(prec);
      ghost var list := lists[prec];
      p, k := q[prec].head, 0;
      while p != null && p.link != pktbuf
        invariant k <= |list| && p == At(list, k)
        invariant forall i :: 0 <= i <= k && i < |list| ==> list[i] != pktbuf
        decreases |list| - k
      {
        p, k := p.link, k + 1;
      }
    }

    /** Deletes one packet, if it is queued at this precedence. */
    method Pdel(pktbuf: Pkt?, prec: nat) returns (found: bool, ghost k: nat)
      requires Valid() && prec < numPrec
      modifies this`q, this`len, this`lists, pkts
      ensures SameMax(q, old(q)) && (old(Tidy()) ==> Tidy())
      ensures Valid() && found == (pktbuf != null && pktbuf in old(lists)[prec])
      ensures !found ==> lists == old(lists) && q == old(q) && len == old(len)
      ensures found ==>
                && pktbuf.link == null && pktbuf.home == NOWHERE
                && k < |old(lists)[prec]| && old(lists)[prec][k] == pktbuf
                && lists == old(lists)[prec := old(lists)[prec][..k] + old(lists)[prec][k + 1..]]
    {
      hide Describes, Known, Total;
      k := 0;
      if pktbuf == null {
        return false, k;
      }
      HeadNull(prec);
      Open(prec);
      ghost var list := lists[prec];
      if q[prec].head == pktbuf {
        var _ := Pdeq(prec);
        assert list[..0] + list[1..] == list[1..] && list[0] == pktbuf;
        return true, 0;
      }
      var p;
      p, k := FindBefore(prec, pktbuf);
      if p == null {
        return false, k;
      }
      k := k + 1;
      TakeAfter(prec, p, pktbuf, k);
      return true, k;
    }

    /** Deletes the packet after `prev`. */
    method TakeAfter(prec: nat, prev: Pkt, p: Pkt, ghost k: nat)
      requires Valid() && prec < numPrec && 0 < k < |lists[prec]| && p == lists[prec][k] && prev == lists[prec][k - 1]
      modifies this`q, this`len, this`lists, pkts
      ensures Valid() && SameMax(q, old(q)) && (old(Tidy()) ==> Tidy())
      ensures p.link == null && p.home == NOWHERE
      ensures lists == old(lists)[prec := old(lists)[prec][..k] + old(lists)[prec][k + 1..]]
    {
      hide Describes, Known, Total;
      ghost var list := lists[prec];
      HeadNull(prec);
      var d := UnlinkAfter(prec, prev, p, k);
      len := len - 1;
      Rebind(prec, d, list[..k] + list[k + 1..]);
      if old(Tidy()) { TidyStep(old(lists), prec, p); }
    }

    /** pktq_pflush without a filter: every packet is freed, oldest first. */
    method Pflush(prec: nat) returns (freed: seq<Pkt>)
      requires Valid() && prec < numPrec
      modifies this`q, this`len, this`lists, pkts
      ensures Valid() && lists == old(lists)[prec := []] && freed == old(lists)[prec]
      ensures SameMax(q, old(q)) && (old(Tidy()) ==> Tidy())
    {
      hide Describes, Known, Total;
      freed := [];
      HeadNull(prec);
      ghost var list := lists[prec];
      while q[prec].head != null
        invariant Valid() && lists == old(lists)[prec := lists[prec]] && SameMax(q, old(q)) && (old(Tidy()) ==> Tidy())
        invariant freed + lists[prec] == list
        invariant q[prec].head == null <==> lists[prec] == []
        decreases |lists[prec]|
      {
        var p := Pdeq(prec);
        freed := freed + [p];
        HeadNull(prec);
      }
    }
    /** pktq_pflush with a filter: the packets it accepts are freed and the others stay, in order.
        The tail is not repaired, so the queue is sound afterwards exactly if the last packet
        stayed or none did. */
    method PflushFiltered(prec: nat, fn: Pkt -> bool)
      requires Valid() && prec < numPrec
      modifies this`q, this`len, this`lists, pkts
      ensures lists == old(lists)[prec := Kept(old(lists)[prec], fn)] && len == Total(lists) && SameMax(q, old(q))
      ensures var list := old(lists)[prec];
              Valid() <==> Kept(list, fn) == [] || !fn(list[|list| - 1])
    {
      hide Describes, Known, Total, Kept, Others, SameMax, Chained;
      ghost var list, left := lists[prec], Kept(lists[prec], fn);
      Open(prec);
      EmptyStays(prec, fn);
      var d := SiftList(prec, fn);
      TailRight(d, list, left, fn, prec);
      ghost var good := Describes(d, left, prec);
      TotalUpdate(lists, prec, left);
      len := len - (q[prec].len - d.len);
      Exchange(prec, d, left);
      assert q[prec] == d && lists[prec] == left;
      assert Describes(d, left, prec) == good;
      ValidIff(prec);
    }

    /** Puts back a struct that need not describe its list. */
    method Exchange(prec: nat, d: Prec, ghost list: seq<Pkt>)
      requires |q| == |lists| == numPrec && prec < numPrec && Others(prec) && Known(list) && d.max == q[prec].max
      modifies this`q, this`lists
      ensures q == old(q)[prec := d] && lists == old(lists)[prec := list] && Others(prec) && Known(list) && SameMax(q, old(q))
    {
      hide Describes, Known;
      q := q[prec := d];
      lists := lists[prec := list];
    }

    lemma EmptyStays(prec: nat, fn: Pkt -> bool)
      requires prec < |lists|
      ensures lists[prec] == [] ==> Kept(lists[prec], fn) == []
    {
    }

    /** Sifts one list; the others are not touched. */
    method SiftList(prec: nat, fn: Pkt -> bool) returns (d: Prec)
      requires Valid() && prec < numPrec
      modifies pkts
      ensures Others(prec) && Known(Kept(lists[prec], fn)) && d.max == q[prec].max
      ensures Chained(d.head, Kept(lists[prec], fn), prec) && d.len == |Kept(lists[prec], fn)|
      ensures d.tail == if Kept(lists[prec], fn) == [] then null else LastOf(lists[prec])
    {
      hide Describes, Known, Total, Kept;
      ghost var list := lists[prec];
      Open(prec);
      forall x, i | 0 <= i < numPrec && i != prec && x in list ensures x !in lists[i] { NotIn(x, i); }
      KeptFrom(list, fn);
      KnownSub(list, Kept(list, fn));
      d := Sift(q[prec], list, fn, prec);
    }

    /** With everything else in place, one struct decides. */
    lemma ValidIff(prec: nat)
      requires |q| == |lists| == numPrec <= MAX_PREC && hiPrec < numPrec && prec < numPrec && len == Total(lists)
      requires Others(prec) && Known(lists[prec]) && forall p :: hiPrec < p < numPrec ==> lists[p] == []
      ensures Valid() <==> Describes(q[prec], lists[prec], prec)
    {
      hide Describes, Known, Total;
    }

    // -------------------------------------------------------------- all precedences

    /** Lets the bound on the highest precedence come down to the truth. */
    method LowerHiPrec()
      requires Valid()
      modifies this`hiPrec
      ensures Valid() && (hiPrec > 0 ==> lists[hiPrec] != [])
      ensures hiPrec <= old(hiPrec) && forall i :: hiPrec < i < numPrec ==> lists[i] == []
    {
      hide Describes, Known, Total;
      HeadNull(hiPrec);
      while hiPrec > 0 && q[hiPrec].head == null
        invariant Valid() && hiPrec <= old(hiPrec)
        invariant q[hiPrec].head == null <==> lists[hiPrec] == []
      {
        hiPrec := hiPrec - 1;
        HeadNull(hiPrec);
      }
    }

    lemma EmptyIffZero()
      requires Valid()
      ensures len == 0 <==> forall i :: 0 <= i < numPrec ==> lists[i] == []
    {
      hide Describes, Known;
      TotalZero(lists);
    }

    /** Takes the oldest packet of the highest non-empty precedence. */
    method Deq() returns (p: Pkt?, prec: nat)
      requires Valid()
      modifies this`q, this`hiPrec, this`len, this`lists, pkts
      ensures Valid() && SameMax(q, old(q)) && (old(Tidy()) ==> Tidy())
      ensures p == null <==> forall i :: 0 <= i < numPrec ==> old(lists)[i] == []
      ensures p == null ==> lists == old(lists)
      ensures p != null ==>
                && prec < numPrec && (forall i :: prec < i < numPrec ==> old(lists)[i] == [])
                && old(lists)[prec] != [] && p == old(lists)[prec][0] && p.link == null && p.home == NOWHERE
                && lists == old(lists)[prec := old(lists)[prec][1..]]
    {
      hide Describes, Known;
      EmptyIffZero();
      if len == 0 {
        return null, 0;
      }
      LowerHiPrec();
      prec := hiPrec;
      p := Pdeq(prec);
    }

    /** Takes the youngest packet of the lowest non-empty precedence. */
    method DeqTail() returns (p: Pkt?, prec: nat)
      requires Valid()
      modifies this`q, this`len, this`lists, pkts
      ensures Valid() && SameMax(q, old(q)) && (old(Tidy()) ==> Tidy())
      ensures p == null <==> forall i :: 0 <= i < numPrec ==> old(lists)[i] == []
      ensures p == null ==> lists == old(lists)
      ensures p != null ==>
                && prec < numPrec && (forall i :: 0 <= i < prec ==> old(lists)[i] == [])
                && old(lists)[prec] != [] && p == LastOf(old(lists)[prec]) && p.link == null && p.home == NOWHERE
                && lists == old(lists)[prec := old(lists)[prec][..|old(lists)[prec]| - 1]]
    {
      hide Describes, Known;
      EmptyIffZero();
      if len == 0 {
        return null, 0;
      }
      prec := 0;
      while prec < hiPrec
        modifies {}
        invariant prec <= hiPrec && forall i :: 0 <= i < prec ==> lists[i] == []
      {
        HeadNull(prec);
        if q[prec].head != null {
          break;
        }
        prec := prec + 1;
      }
      p := PdeqTail(prec);
    }

    /** Takes the oldest packet of the highest non-empty precedence among those allowed. */
    method Mdeq(bmp: bv32) returns (p: Pkt?, prec: nat)
      requires Valid()
      modifies this`q, this`hiPrec, this`len, this`lists, pkts
      ensures Valid() && SameMax(q, old(q)) && (old(Tidy()) ==> Tidy())
      ensures p == null <==> forall i :: 0 <= i < numPrec && Allowed(bmp, i) ==> old(lists)[i] == []
      ensures p == null ==> lists == old(lists)
      ensures p != null ==>
                && prec < numPrec && Allowed(bmp, prec)
                && (forall i :: prec < i < numPrec && Allowed(bmp, i) ==> old(lists)[i] == [])
                && old(lists)[prec] != [] && p == old(lists)[prec][0] && p.link == null && p.home == NOWHERE
                && lists == old(lists)[prec := old(lists)[prec][1..]]
    {
      hide Describes, Known, Allowed;
      EmptyIffZero();
      if len == 0 {
        return null, 0;
      }
      LowerHiPrec();
      prec := hiPrec;
      HeadNull(prec);
      while q[prec].head == null || !Allowed(bmp, prec)
        modifies {}
        invariant prec <= hiPrec && forall i :: prec < i < numPrec && Allowed(bmp, i) ==> lists[i] == []
        invariant q[prec].head == null <==> lists[prec] == []
        decreases prec
      {
        if prec == 0 {
          return null, 0;
        }
        prec := prec - 1;
        HeadNull(prec);
      }
      p := Pdeq(prec);
    }

    /** The number of packets at the selected precedences. */
    method Mlen(bmp: bv32) returns (n: nat)
      requires Valid()
      ensures n == Selected(lists, bmp, numPrec)
    {
      hide Describes, Known, Allowed;
      n := 0;
      var prec := 0;
      while prec <= hiPrec
        invariant prec <= hiPrec + 1
        invariant n == Selected(lists, bmp, prec)
      {
        Open(prec);
        if Allowed(bmp, prec) {
          n := n + q[prec].len;
        }
        prec := prec + 1;
      }
      SelectedEmpty(lists, bmp, prec, numPrec);
    }

    /** pktq_flush without a filter. */
    method Flush() returns (freed: seq<seq<Pkt>>)
      requires Valid()
      modifies this`q, this`len, this`lists, pkts
      ensures Valid() && len == 0 && forall i :: 0 <= i < numPrec ==> lists[i] == []
      ensures SameMax(q, old(q)) && (old(Tidy()) ==> Tidy())
      ensures old(len) == 0 || freed == old(lists)
    {
      hide Describes, Known;
      EmptyIffZero();
      freed := [];
      if len == 0 {
        return;
      }
      var prec := 0;
      while prec < numPrec
        invariant prec <= numPrec && Valid() && SameMax(q, old(q)) && (old(Tidy()) ==> Tidy())
        invariant forall i :: 0 <= i < prec ==> lists[i] == []
        invariant forall i :: prec <= i < numPrec ==> lists[i] == old(lists)[i]
        invariant freed == old(lists)[..prec]
      {
        var f := Pflush(prec);
        freed := freed + [f];
        prec := prec + 1;
      }
      EmptyIffZero();
    }
  }

  // ---------------------------------------------------------------- flushing through a filter

  /** The packets that a filter does not accept. */
  function Kept(list: seq<Pkt>, fn: Pkt -> bool): seq<Pkt> {
    if list == [] then [] else (if fn(list[0]) then [] else [list[0]]) + Kept(list[1..], fn)
  }

  lemma {:induction false} KeptFrom(list: seq<Pkt>, fn: Pkt -> bool)
    ensures |Kept(list, fn)| <= |list| && forall i :: 0 <= i < |Kept(list, fn)| ==> Kept(list, fn)[i] in list
    ensures Kept(list, fn) != [] && !fn(list[|list| - 1]) ==> LastOf(Kept(list, fn)) == LastOf(list)
    ensures list != [] && fn(list[|list| - 1]) ==> list[|list| - 1] !in Kept(list, fn)
    ensures list != [] && Kept(list, fn) == [] ==> fn(list[|list| - 1])
  {
    if list != [] {
      KeptFrom(list[1..], fn);
    }
  }

  /** The tail that the source leaves in place is the right one exactly then. */
  lemma TailRight(d: Prec, list: seq<Pkt>, left: seq<Pkt>, fn: Pkt -> bool, home: nat)
    requires left == Kept(list, fn) && Chained(d.head, left, home) && d.len == |left|
    requires d.tail == if left == [] then null else LastOf(list)
    ensures Describes(d, left, home) <==> left == [] || !fn(list[|list| - 1])
  {
    KeptFrom(list, fn);
  }

  /** Drops the m-th packet of a list, without a look at its tail. */
  method Drop(d: Prec, prev: Pkt?, p: Pkt, ghost list: seq<Pkt>, ghost m: nat, ghost home: nat) returns (r: Prec)
    requires m < |list| && p == list[m] && prev == if m > 0 then list[m - 1] else null
    requires Chained(d.head, list, home) && d.len == |list|
    modifies (if prev == null then {} else {prev})`link, p`link, p`home
    ensures Chained(r.head, list[..m] + list[m + 1..], home) && r.len == |list| - 1 && r.tail == d.tail && r.max == d.max
  {
    r := d;
    if p == d.head {
      r := r.(head := p.link);
    } else {
      prev.link := p.link;
    }
    p.link := null;
    p.home := NOWHERE;
    r := r.(len := r.len - 1);
    Dropped(r.head, list, m, home);
  }

  lemma Dropped(head: Pkt?, list: seq<Pkt>, m: nat, home: int)
    requires m < |list| && head == At(list, if m == 0 then 1 else 0)
    requires forall i :: 0 <= i < |list| && i != m && i + 1 != m ==> list[i].link == At(list, i + 1)
    requires m > 0 ==> list[m - 1].link == At(list, m + 1)
    requires forall i :: 0 <= i < |list| && i != m ==> list[i].home == home
    requires forall i, j :: 0 <= i < j < |list| ==> list[i] != list[j]
    ensures Chained(head, list[..m] + list[m + 1..], home)
  {
    var c := list[..m] + list[m + 1..];
    assert forall i :: 0 <= i < |c| ==> c[i] == list[if i < m then i else i + 1];
    forall i | 0 <= i < |c| ensures c[i].link == At(c, i + 1) {
      var j := if i < m then i else i + 1;
      assert c[i] == list[j] && list[j].link == At(list, if j + 1 == m then m + 1 else j + 1);
    }
    forall i, j | 0 <= i < j < |c| ensures c[i] != c[j] {
      assert c[i] == list[if i < m then i else i + 1] && c[j] == list[if j < m then j else j + 1];
    }
  }

  lemma NextInChain(head: Pkt?, list: seq<Pkt>, m: nat, home: int)
    requires Chained(head, list, home)
    ensures head == At(list, 0) && (m < |list| ==> list[m].link == At(list, m + 1) && (list[m] == head <==> m == 0))
  {
  }

  /** The loop of the filtered flush over one list. */
  method Sift(d: Prec, ghost list: seq<Pkt>, fn: Pkt -> bool, ghost home: nat) returns (r: Prec)
    requires Chained(d.head, list, home) && d.len == |list| && d.tail == LastOf(list)
    modifies set x | x in list
    ensures Chained(r.head, Kept(list, fn), home) && r.len == |Kept(list, fn)| && r.max == d.max
    ensures r.tail == if Kept(list, fn) == [] then null else LastOf(list)
  {
    hide Chained, Kept;
    r := d;
    var p, prev: Pkt? := d.head, null;
    ghost var cur, m := list, 0;
    NextInChain(r.head, cur, 0, home);
    assert cur[..0] + Kept(cur[0..], fn) == Kept(list, fn) by { assert cur[0..] == list; }
    while p != null
      invariant m <= |cur| <= |list| && p == At(cur, m) && prev == (if m > 0 then cur[m - 1] else null)
      invariant Chained(r.head, cur, home) && r.len == |cur| && r.tail == d.tail && r.max == d.max
      invariant forall i :: 0 <= i < |cur| ==> cur[i] in list
      invariant cur[..m] + Kept(cur[m..], fn) == Kept(list, fn)
      decreases |cur| - m
    {
      NextInChain(r.head, cur, m, home);
      KeptNext(cur, m, fn);
      if fn(p) {
        var head := p == r.head;
        r := Drop(r, prev, p, cur, m, home);
        cur := cur[..m] + cur[m + 1..];
        NextInChain(r.head, cur, if m == 0 then 0 else m - 1, home);
        p := if head then r.head else prev.link;
      } else {
        prev, p, m := p, p.link, m + 1;
      }
    }
    NextInChain(r.head, cur, 0, home);
    KeptNone(cur, fn);
    if r.head == null {
      r := r.(tail := null);
    }
  }

  lemma KeptNext(cur: seq<Pkt>, m: nat, fn: Pkt -> bool)
    requires m < |cur|
    ensures var next := cur[..m] + cur[m + 1..];
            fn(cur[m]) ==> next[..m] + Kept(next[m..], fn) == cur[..m] + Kept(cur[m..], fn)
    ensures !fn(cur[m]) ==> cur[..m + 1] + Kept(cur[m + 1..], fn) == cur[..m] + Kept(cur[m..], fn)
  {
    var next := cur[..m] + cur[m + 1..];
    assert next[..m] == cur[..m] && next[m..] == cur[m + 1..] && cur[m..][1..] == cur[m + 1..] && cur[m..][0] == cur[m];
    assert cur[..m + 1] == cur[..m] + [cur[m]];
    var rest := Kept(cur[m + 1..], fn);
    assert cur[..m] + [cur[m]] + rest == cur[..m] + ([cur[m]] + rest);
  }

  lemma KeptNone(cur: seq<Pkt>, fn: Pkt -> bool)
    ensures cur[..|cur|] + Kept(cur[|cur|..], fn) == cur
  {
  }

  // ---------------------------------------------------------------- what the surgery does

  /** Links past the k-th packet of a list. */
  method Bypass(d: Prec, prev: Pkt, p: Pkt, ghost list: seq<Pkt>, ghost k: nat, ghost home: nat) returns (r: Prec)
    requires 0 < k < |list| && p == list[k] && prev == list[k - 1]
    requires d.head == list[0] && d.tail == LastOf(list) && d.len == |list|
    requires forall i :: 0 <= i < |list| ==> list[i].link == At(list, i + 1)
    requires forall i :: 0 <= i < |list| ==> list[i].home == home
    requires forall i, j :: 0 <= i < j < |list| ==> list[i] != list[j]
    modifies prev`link, p`link, p`home
    ensures p.link == null && p.home == NOWHERE && r.max == d.max && Describes(r, list[..k] + list[k + 1..], home)
  {
    hide Describes;
    r := d;
    prev.link := p.link;
    if r.tail == p {
      r := r.(tail := prev);
    }
    r := r.(len := r.len - 1);
    p.link := null;
    p.home := NOWHERE;
    Bypassed(r, list, k, home);
  }

  /** Ends a list before its last packet. */
  method Curtail(d: Prec, prev: Pkt?, p: Pkt, ghost list: seq<Pkt>, ghost home: nat) returns (r: Prec)
    requires list != [] && p == LastOf(list) && prev == if |list| > 1 then list[|list| - 2] else null
    requires d.head == list[0] && d.len == |list|
    requires forall i :: 0 <= i < |list| ==> list[i].link == At(list, i + 1)
    requires forall i :: 0 <= i < |list| ==> list[i].home == home
    requires forall i, j :: 0 <= i < j < |list| ==> list[i] != list[j]
    modifies (if prev == null then {} else {prev})`link, p`home
    ensures p.link == null && p.home == NOWHERE && r.max == d.max && Describes(r, list[..|list| - 1], home)
  {
    hide Describes;
    r := d;
    if prev != null {
      prev.link := null;
    } else {
      r := r.(head := null);
    }
    r := r.(tail := prev, len := r.len - 1);
    p.home := NOWHERE;
    Curtailed(r, list, home);
  }

  lemma Prepended(d: Prec, list: seq<Pkt>, p: Pkt, home: nat)
    requires d.head == p && d.tail == LastOf([p] + list) && d.len == |list| + 1
    requires p !in list && p.home == home && p.link == At(list, 0)
    requires forall i :: 0 <= i < |list| ==> list[i].link == At(list, i + 1)
    requires forall i :: 0 <= i < |list| ==> list[i].home == home
    requires forall i, j :: 0 <= i < j < |list| ==> list[i] != list[j]
    ensures Describes(d, [p] + list, home)
  {
  }

  lemma Beheaded(d: Prec, list: seq<Pkt>, home: nat)
    requires list != [] && d.head == At(list, 1) && d.tail == LastOf(list[1..]) && d.len == |list| - 1
    requires forall i :: 1 <= i < |list| ==> list[i].link == At(list, i + 1)
    requires forall i :: 1 <= i < |list| ==> list[i].home == home
    requires forall i, j :: 0 <= i < j < |list| ==> list[i] != list[j]
    ensures Describes(d, list[1..], home)
  {
  }

  lemma Bypassed(d: Prec, list: seq<Pkt>, k: nat, home: nat)
    requires 0 < k < |list| && d.head == list[0] && d.len == |list| - 1
    requires d.tail == if k == |list| - 1 then list[k - 1] else list[|list| - 1]
    requires forall i :: 0 <= i < |list| && i != k && i + 1 != k ==> list[i].link == At(list, i + 1)
    requires list[k - 1].link == At(list, k + 1)
    requires forall i :: 0 <= i < |list| && i != k ==> list[i].home == home
    requires forall i, j :: 0 <= i < j < |list| ==> list[i] != list[j]
    ensures Describes(d, list[..k] + list[k + 1..], home)
  {
    hide Chained;
    var c := list[..k] + list[k + 1..];
    Dropped(d.head, list, k, home);
    assert LastOf(c) == d.tail;
  }

  lemma Curtailed(d: Prec, list: seq<Pkt>, home: nat)
    requires list != [] && d.head == At(list[..|list| - 1], 0) && d.tail == LastOf(list[..|list| - 1]) && d.len == |list| - 1
    requires forall i :: 0 <= i < |list| - 2 ==> list[i].link == At(list, i + 1)
    requires |list| > 1 ==> list[|list| - 2].link == null
    requires forall i :: 0 <= i < |list| - 1 ==> list[i].home == home
    requires forall i, j :: 0 <= i < j < |list| ==> list[i] != list[j]
    ensures Describes(d, list[..|list| - 1], home)
  {
  }

  lemma Appended(d: Prec, list: seq<Pkt>, p: Pkt, home: nat)
    requires d.head == At(list + [p], 0) && d.tail == p && d.len == |list| + 1
    requires p !in list && p.home == home && p.link == null
    requires forall i :: 0 <= i < |list| ==> list[i].link == At(list + [p], i + 1)
    requires forall i :: 0 <= i < |list| ==> list[i].home == home
    requires forall i, j :: 0 <= i < j < |list| ==> list[i] != list[j]
    ensures Describes(d, list + [p], home)
  {
  }
}
