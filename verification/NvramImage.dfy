/** The NVRAM image: tuples written as name=value NUL ... NUL NUL into a fixed area, and
    parsed back. */
module NvramImage {
  import opened Bytes
  import opened NvramTable

  const EQ: Octet := 0x3D

  // ---------------------------------------------------------------- writing

  function Entry(p: Pair): (s: seq<Octet>)
    ensures |s| == |p.name| + |p.value| + 2
  {
    p.name + [EQ] + p.value + [0]
  }

  function Serialize(pairs: seq<Pair>): seq<Octet> {
    if pairs == [] then [] else Serialize(pairs[..|pairs| - 1]) + Entry(pairs[|pairs| - 1])
  }

  /** The leading pairs of a bucket that fit; the first that does not ends the bucket. */
  function Fitting(bucket: seq<Pair>, used: nat, room: nat): seq<Pair>
    decreases |bucket|
  {
    if bucket == [] || used + |Entry(bucket[0])| > room then []
    else [bucket[0]] + Fitting(bucket[1..], used + |Entry(bucket[0])|, room)
  }

  /** What is written of the first `b` buckets; a bucket cut short does not stop later ones. */
  function Written(t: Table, b: nat, room: nat): seq<Pair>
    requires b <= BUCKETS
  {
    if b == 0 then []
    else
      var before := Written(t, b - 1, room);
      before + Fitting(t[b - 1], |Serialize(before)|, room)
  }

  /** All pairs of the first `b` buckets. */
  function Flat(t: Table, b: nat): seq<Pair>
    requires b <= BUCKETS
  {
    if b == 0 then [] else Flat(t, b - 1) + t[b - 1]
  }

  lemma {:induction false} SerializeConcat(a: seq<Pair>, b: seq<Pair>)
    ensures Serialize(a + b) == Serialize(a) + Serialize(b)
    decreases |b|
  {
    hide Entry;
    if b == [] {
      assert a + b == a;
    } else {
      assert (a + b)[..|a + b| - 1] == a + b[..|b| - 1];
      SerializeConcat(a, b[..|b| - 1]);
      assert Serialize(a) + (Serialize(b[..|b| - 1]) + Entry(b[|b| - 1])) == Serialize(a) + Serialize(b[..|b| - 1]) + Entry(b[|b| - 1]);
    }
  }

  lemma SerializeCons(p: Pair, rest: seq<Pair>)
    ensures Serialize([p] + rest) == Entry(p) + Serialize(rest)
  {
    hide Entry;
    SerializeConcat([p], rest);
    assert [p][..0] == [] && Serialize([p]) == [] + Entry(p) == Entry(p);
  }

  /** What is written of a bucket is a prefix of it, stays within the room, and is the
      whole bucket exactly when that fits. */
  lemma {:induction false} FittingFits(bucket: seq<Pair>, used: nat, room: nat)
    requires used <= room
    ensures Fitting(bucket, used, room) <= bucket
    ensures used + |Serialize(Fitting(bucket, used, room))| <= room
    ensures Fitting(bucket, used, room) == bucket <==> used + |Serialize(bucket)| <= room
    decreases |bucket|
  {
    hide Entry;
    if bucket != [] {
      var p, rest := bucket[0], bucket[1..];
      assert [p] + rest == bucket;
      SerializeCons(p, rest);
      if used + |Entry(p)| <= room {
        FittingFits(rest, used + |Entry(p)|, room);
        SerializeCons(p, Fitting(rest, used + |Entry(p)|, room));
      }
    }
  }

  /** And it stops only where the next pair does not fit. */
  lemma {:induction false} FittingStops(bucket: seq<Pair>, used: nat, room: nat)
    requires used <= room && |Fitting(bucket, used, room)| < |bucket|
    ensures used + |Serialize(bucket[..|Fitting(bucket, used, room)| + 1])| > room
    decreases |bucket|
  {
    hide Entry;
    var p, rest := bucket[0], bucket[1..];
    var n := |Fitting(bucket, used, room)|;
    assert bucket[..n + 1] == [p] + rest[..n];
    SerializeCons(p, rest[..n]);
    if used + |Entry(p)| <= room {
      FittingStops(rest, used + |Entry(p)|, room);
    }
  }

  /** Writing never passes the end of the room, and writes everything exactly when
      everything fits. */
  lemma {:induction false} WrittenFits(t: Table, b: nat, room: nat)
    requires b <= BUCKETS
    ensures |Serialize(Written(t, b, room))| <= room
    ensures Written(t, b, room) == Flat(t, b) <==> |Serialize(Flat(t, b))| <= room
    ensures |Written(t, b, room)| <= |Flat(t, b)|
    decreases b
  {
    hide Fitting, Entry;
    if b > 0 {
      WrittenFits(t, b - 1, room);
      var before := Written(t, b - 1, room);
      var used := |Serialize(before)|;
      FittingFits(t[b - 1], used, room);
      SerializeConcat(before, Fitting(t[b - 1], used, room));
      SerializeConcat(Flat(t, b - 1), t[b - 1]);
      if before != Flat(t, b - 1) {
        assert |Serialize(Flat(t, b))| > room;
      }
    }
  }

  // ---------------------------------------------------------------- parsing

  /** The area ends in a double NUL, so that every scan stays inside. */
  predicate Terminated(d: seq<Octet>) {
    |d| >= 2 && d[|d| - 2] == 0 && d[|d| - 1] == 0
  }

  /** strlen: where the string at `p` ends. */
  function Nul(d: seq<Octet>, p: nat): (z: nat)
    requires Terminated(d) && p < |d|
    ensures p <= z < |d| && d[z] == 0 && forall i :: p <= i < z ==> d[i] != 0
    decreases |d| - p
  {
    if d[p] == 0 then p else Nul(d, p + 1)
  }

  /** strchr: the first '=' of the string at `p`, or its end. */
  function Equals(d: seq<Octet>, p: nat): (e: nat)
    requires Terminated(d) && p < |d|
    ensures p <= e < |d| && (d[e] == 0 || d[e] == EQ) && forall i :: p <= i < e ==> d[i] != 0 && d[i] != EQ
    decreases |d| - p
  {
    if d[p] == 0 || d[p] == EQ then p else Equals(d, p + 1)
  }

  function Parse(d: seq<Octet>, p: nat): seq<Pair>
    requires Terminated(d) && p < |d|
    decreases |d| - p
  {
    if d[p] == 0 then []
    else
      var e := Equals(d, p);
      if d[e] == 0 then []
      else
        assert e + 2 < |d|;
        var z := Nul(d, e + 1);
        assert z < |d| - 1;
        [Pair(d[p..e], d[e + 1..z])] + Parse(d, z + 1)
  }

  predicate NoEq(name: Text) { EQ !in name }

  /** How a written pair reads back: it is split at the first '='. */
  function Reread(p: Pair): (r: Pair)
    ensures NoEq(r.name)
    ensures r == p <==> NoEq(p.name)
  {
    var k := FirstEq(p.name);
    if k == |p.name| then p
    else Pair(p.name[..k], p.name[k + 1..] + [EQ] + p.value)
  }

  function FirstEq(s: seq<Octet>): (k: nat)
    ensures k <= |s| && EQ !in s[..k] && (k < |s| ==> s[k] == EQ)
  {
    if s == [] || s[0] == EQ then 0 else
    var k := 1 + FirstEq(s[1..]);
    assert s[..k] == [s[0]] + s[1..][..k - 1];
    k
  }

  lemma RereadText(p: Pair)
    ensures var r := Reread(p); r.name + [EQ] + r.value + [0] == Entry(p)
  {
    hide FirstEq;
    var k := FirstEq(p.name);
    if k < |p.name| {
      var a, b := p.name[..k], p.name[k + 1..];
      assert p.name == a + [EQ] + b;
      assert a + [EQ] + (b + [EQ] + p.value) + [0] == (a + [EQ] + b) + [EQ] + p.value + [0];
    }
  }

  /** A string at `p` whose first '=' is at `e` and whose end is at `z`. */
  lemma ParseAt(d: seq<Octet>, p: nat, e: nat, z: nat)
    requires Terminated(d) && p <= e < z < |d| - 1 && d[e] == EQ && d[z] == 0
    requires forall i :: p <= i < e ==> d[i] != 0 && d[i] != EQ
    requires forall i :: e < i < z ==> d[i] != 0
    ensures Parse(d, p) == [Pair(d[p..e], d[e + 1..z])] + Parse(d, z + 1)
  {
    assert Equals(d, p) == e;
    assert Nul(d, e + 1) == z;
    assert d[p] != 0;
  }

  /** One tuple at `p` followed by anything. */
  lemma ParseTuple(d: seq<Octet>, p: nat, pair: Pair)
    requires Terminated(d) && p + |Entry(pair)| < |d|
    requires d[p..p + |Entry(pair)|] == Entry(pair)
    ensures Parse(d, p) == [Reread(pair)] + Parse(d, p + |Entry(pair)|)
  {
    hide Entry, Reread, Parse;
    var r := Reread(pair);
    RereadText(pair);
    SplitText(d, p, r, p + |Entry(pair)|);
    ParseAt(d, p, p + |r.name|, p + |Entry(pair)| - 1);
  }

  lemma SplitText(d: seq<Octet>, p: nat, r: Pair, q: nat)
    requires p <= q <= |d| && d[p..q] == r.name + [EQ] + r.value + [0] && NoEq(r.name)
    ensures q == p + |r.name| + |r.value| + 2
    ensures var e := p + |r.name|;
            && d[e] == EQ && d[q - 1] == 0 && d[p..e] == r.name && d[e + 1..q - 1] == r.value
            && (forall i :: p <= i < e ==> d[i] != 0 && d[i] != EQ) && (forall i :: e < i < q - 1 ==> d[i] != 0)
  {
    var text, e := r.name + [EQ] + r.value + [0], p + |r.name|;
    assert |text| == q - p;
    assert forall i :: p <= i < q ==> d[i] == text[i - p];
    assert forall i :: p <= i < e ==> d[i] == r.name[i - p];
    assert forall i :: e < i < q - 1 ==> d[i] == r.value[i - e - 1];
  }

  function RereadAll(pairs: seq<Pair>): (r: seq<Pair>)
    ensures |r| == |pairs| && forall i :: 0 <= i < |r| ==> r[i] == Reread(pairs[i])
  {
    if pairs == [] then [] else RereadAll(pairs[..|pairs| - 1]) + [Reread(pairs[|pairs| - 1])]
  }

  lemma Slices(d: seq<Octet>, p: nat, a: seq<Octet>, b: seq<Octet>)
    requires p + |a| + |b| <= |d| && d[p..p + |a + b|] == a + b
    ensures d[p..p + |a|] == a && d[p + |a|..p + |a| + |b|] == b
  {
    var text := d[p..p + |a + b|];
    assert d[p..p + |a|] == text[..|a|] && d[p + |a|..p + |a| + |b|] == text[|a|..];
  }

  lemma RereadCons(p: Pair, rest: seq<Pair>)
    ensures RereadAll([p] + rest) == [Reread(p)] + RereadAll(rest)
  {
    hide Reread;
  }

  lemma ParseEnd(d: seq<Octet>, p: nat)
    requires Terminated(d) && p < |d| && d[p] == 0
    ensures Parse(d, p) == []
  {
  }

  /** Print, then parse: whatever follows the closing NUL, the pairs come back, split at
      their first '='. */
  lemma {:induction false} ParseSerialized(d: seq<Octet>, p: nat, pairs: seq<Pair>)
    requires Terminated(d) && p + |Serialize(pairs)| < |d|
    requires d[p..p + |Serialize(pairs)|] == Serialize(pairs) && d[p + |Serialize(pairs)|] == 0
    ensures Parse(d, p) == RereadAll(pairs)
    decreases |pairs|
  {
    hide Entry, Reread, Parse, RereadAll;
    if pairs == [] {
      ParseEnd(d, p);
    } else {
      hide Serialize;
      var head, rest := pairs[0], pairs[1..];
      assert pairs == [head] + rest;
      SerializeCons(head, rest);
      Slices(d, p, Entry(head), Serialize(rest));
      ParseTuple(d, p, head);
      ParseSerialized(d, p + |Entry(head)|, rest);
      RereadCons(head, rest);
    }
  }

  /** An image as it looks: a=b, c=, and the closing NULs. */
  lemma ExampleWritten()
    ensures Serialize([Pair([0x61], [0x62]), Pair([0x63], [])]) == [0x61, 0x3D, 0x62, 0, 0x63, 0x3D, 0]
  {
    hide Serialize;
    var p, q := Pair([0x61], [0x62]), Pair([0x63], []);
    SerializeCons(p, [q]);
    SerializeCons(q, []);
    NothingSerialized();
    assert [p] + [q] == [p, q] && [q] + [] == [q];
    assert Entry(p) == [0x61, 0x3D, 0x62, 0] && Entry(q) + [] == [0x63, 0x3D, 0];
  }

  lemma NothingSerialized()
    ensures Serialize([]) == []
  {
  }

  lemma ExampleParsed()
    ensures Parse([0x61, 0x3D, 0x62, 0, 0x63, 0x3D, 0, 0, 0], 0) == [Pair([0x61], [0x62]), Pair([0x63], [])]
  {
    hide Parse;
    var p, q := Pair([0x61], [0x62]), Pair([0x63], []);
    var d: seq<Octet> := [0x61, 0x3D, 0x62, 0, 0x63, 0x3D, 0, 0, 0];
    assert d[0..1] == p.name && d[2..3] == p.value && d[4..5] == q.name && d[6..6] == q.value;
    ParseAt(d, 0, 1, 3);
    ParseAt(d, 4, 5, 6);
    ParseEnd(d, 7);
    assert [p] + ([q] + []) == [p, q];
  }
}
