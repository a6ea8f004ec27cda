/** The NVRAM hash table as a value: 257 buckets of name/value pairs, and the map it
    stands for. */
module NvramTable {
  import opened Bytes
  import opened Arith

  datatype Pair = Pair(name: Text, value: Text)

  const BUCKETS: nat := 257

  type Table = t: seq<seq<Pair>> | |t| == BUCKETS witness seq(257, _ => [])

  function Empty(): (t: Table)
    ensures forall b :: 0 <= b < BUCKETS ==> t[b] == []
  {
    seq(BUCKETS, _ => [])
  }

  /** String hash, in 32 bits. */
  function Hash(s: Text): nat {
    if s == [] then 0 else (31 * Hash(s[..|s| - 1]) + s[|s| - 1] as int) % 0x1_0000_0000
  }

  function Bucket(name: Text): (b: nat)
    ensures b < BUCKETS
  {
    Hash(name) % BUCKETS
  }

  /** Index of the first pair called `name`, or the length of the bucket. */
  function Index(bucket: seq<Pair>, name: Text): (k: nat)
    ensures k <= |bucket|
    ensures forall i :: 0 <= i < k ==> bucket[i].name != name
    ensures k < |bucket| ==> bucket[k].name == name
  {
    if bucket == [] || bucket[0].name == name then 0 else 1 + Index(bucket[1..], name)
  }

  function Without(bucket: seq<Pair>, name: Text): seq<Pair> {
    var k := Index(bucket, name);
    if k == |bucket| then bucket else bucket[..k] + bucket[k + 1..]
  }

  function Lookup(t: Table, name: Text): Option<Text> {
    var bucket := t[Bucket(name)];
    var k := Index(bucket, name);
    if k == |bucket| then None else Some(bucket[k].value)
  }

  function Set(t: Table, name: Text, value: Text): Table {
    var b := Bucket(name);
    t[b := [Pair(name, value)] + Without(t[b], name)]
  }

  function Unset(t: Table, name: Text): Table {
    var b := Bucket(name);
    t[b := Without(t[b], name)]
  }

  /** Every name sits in the bucket it hashes to. */
  predicate InPlace(bucket: seq<Pair>, b: nat) {
    forall i :: 0 <= i < |bucket| ==> Bucket(bucket[i].name) == b
  }

  predicate Distinct(bucket: seq<Pair>) {
    forall i, j :: 0 <= i < j < |bucket| ==> bucket[i].name != bucket[j].name
  }

  predicate ValidTable(t: Table) {
    forall b :: 0 <= b < BUCKETS ==> InPlace(t[b], b) && Distinct(t[b])
  }

  /** The first occurrence is where an occurrence is first. */
  lemma {:induction false} IndexIs(bucket: seq<Pair>, name: Text, k: nat)
    requires k <= |bucket| && forall i :: 0 <= i < k ==> bucket[i].name != name
    requires k < |bucket| ==> bucket[k].name == name
    ensures Index(bucket, name) == k
  {
  }

  lemma WithoutLosesOnly(bucket: seq<Pair>, name: Text)
    requires Distinct(bucket)
    ensures Distinct(Without(bucket, name))
    ensures Index(Without(bucket, name), name) == |Without(bucket, name)|
    ensures forall b :: InPlace(bucket, b) ==> InPlace(Without(bucket, name), b)
  {
    var k, w := Index(bucket, name), Without(bucket, name);
    if k < |bucket| {
      forall i | 0 <= i < |w| ensures w[i] == bucket[if i < k then i else i + 1] && w[i].name != name {}
    }
    IndexIs(w, name, |w|);
  }

  lemma WithoutKeeps(bucket: seq<Pair>, name: Text, other: Text)
    requires Distinct(bucket) && other != name
    ensures var w := Without(bucket, name);
            && (Index(bucket, other) == |bucket| <==> Index(w, other) == |w|)
            && (Index(bucket, other) < |bucket| ==> w[Index(w, other)] == bucket[Index(bucket, other)])
  {
    var w, k, j := Without(bucket, name), Index(bucket, name), Index(bucket, other);
    if k < |bucket| {
      assert forall i :: 0 <= i < |w| ==> w[i] == bucket[if i < k then i else i + 1];
      IndexIs(w, other, if j <= k then j else j - 1);
    }
  }

  lemma ConsIndex(p: Pair, bucket: seq<Pair>, name: Text)
    ensures Index([p] + bucket, name) == if p.name == name then 0 else 1 + Index(bucket, name)
  {
    assert ([p] + bucket)[1..] == bucket;
  }

  /** Set is map update: the name now has the value, nothing else changed. */
  lemma SetIsUpdate(t: Table, name: Text, value: Text, other: Text)
    requires ValidTable(t)
    ensures ValidTable(Set(t, name, value))
    ensures Lookup(Set(t, name, value), other) == if other == name then Some(value) else Lookup(t, other)
  {
    hide Hash, Without;
    var b := Bucket(name);
    WithoutLosesOnly(t[b], name);
    var w := Without(t[b], name);
    var t' := Set(t, name, value);
    forall c | 0 <= c < BUCKETS ensures InPlace(t'[c], c) && Distinct(t'[c]) {
      if c == b {
        forall i | 0 <= i < |w| ensures w[i].name != name {}
      }
    }
    ConsIndex(Pair(name, value), w, other);
    if other != name && Bucket(other) == b { WithoutKeeps(t[b], name, other); }
  }

  /** Unset is map removal. */
  lemma UnsetIsRemoval(t: Table, name: Text, other: Text)
    requires ValidTable(t)
    ensures ValidTable(Unset(t, name))
    ensures Lookup(Unset(t, name), other) == if other == name then None else Lookup(t, other)
  {
    hide Hash, Without;
    var b := Bucket(name);
    WithoutLosesOnly(t[b], name);
    if other != name && Bucket(other) == b { WithoutKeeps(t[b], name, other); }
  }

  lemma EmptyTable(name: Text)
    ensures ValidTable(Empty()) && Lookup(Empty(), name) == None
  {
  }

  // ---------------------------------------------------------------- the hash as a number

  function Code(c: Octet): nat { c as int }

  function Pow31(k: nat): nat { if k == 0 then 1 else 31 * Pow31(k - 1) }

  /** The characters as the coefficients of a polynomial in 31, the first one highest. */
  function Poly(s: Text): nat { if s == [] then 0 else Code(s[0]) * Pow31(|s| - 1) + Poly(s[1..]) }

  lemma {:induction false} PolyNext(s: Text, c: Octet)
    requires c != 0
    ensures Poly(s + [c]) == 31 * Poly(s) + Code(c)
    decreases |s|
  {
    hide Code, Pow31;
    var t: Text := s + [c];
    Pow31Next(|s|);
    if s == [] {
      assert t == [c] && t[1..] == [];
      Once(Code(c));
    } else {
      assert t[1..] == s[1..] + [c] && t[0] == s[0];
      PolyNext(s[1..], c);
      Horner(Code(s[0]), Pow31(|s| - 1), Poly(s[1..]), Code(c));
    }
  }

  lemma Pow31Next(k: nat)
    ensures Pow31(0) == 1 && (k > 0 ==> Pow31(k) == 31 * Pow31(k - 1))
  {
  }

  lemma Once(x: nat)
    ensures x * 1 == x
  {
  }

  lemma Horner(a: nat, p: nat, q: nat, c: nat)
    ensures a * (31 * p) + (31 * q + c) == 31 * (a * p + q) + c
  {
    assert a * (31 * p) == 31 * (a * p);
  }

  /** The string hash is that polynomial modulo 2^32, whatever wraps on the way. */
  lemma {:induction false} HashIsPoly(s: Text)
    ensures Hash(s) == Poly(s) % 0x1_0000_0000
    ensures Bucket(s) == Poly(s) % 0x1_0000_0000 % 257
    decreases |s|
  {
    hide Poly, Code;
    if s == [] {
      EmptyPoly();
    } else {
      var k := |s| - 1;
      HashIsPoly(s[..k]);
      PolyNext(s[..k], s[k]);
      assert s[..k] + [s[k]] == s;
      HashWraps(Poly(s[..k]), Code(s[k]));
      CodeIs(s[k]);
    }
  }

  lemma EmptyPoly()
    ensures Poly([]) == 0
  {
  }

  lemma CodeIs(c: Octet)
    ensures Code(c) == c as int
  {
  }

  lemma HashWraps(p: nat, c: nat)
    ensures (31 * (p % 0x1_0000_0000) + c) % 0x1_0000_0000 == (31 * p + c) % 0x1_0000_0000
  {
    var m := 0x1_0000_0000;
    DivMod(p, m);
    DivShift(31 * (p % m) + c, m, 31 * (p / m));
  }

  /** hash, and the bucket it selects. */
  method HashOf(name: Text) returns (b: nat)
    ensures b == Bucket(name)
  {
    var hashval, i := 0, 0;
    assert name[..0] == [] && name[..|name|] == name;
    while i < |name|
      invariant 0 <= i <= |name| && hashval == Hash(name[..i])
    {
      assert name[..i + 1][..i] == name[..i];
      hashval := (31 * hashval + name[i] as int) % 0x1_0000_0000;
      i := i + 1;
    }
    b := hashval % BUCKETS;
  }

  // ---------------------------------------------------------------- the order in a bucket

  /** The pairs of other names, in order. */
  function Others(bucket: seq<Pair>, name: Text): seq<Pair> {
    if bucket == [] then []
    else (if bucket[0].name == name then [] else [bucket[0]]) + Others(bucket[1..], name)
  }

  lemma WithoutIsOthers(bucket: seq<Pair>, name: Text)
    requires Distinct(bucket)
    ensures Without(bucket, name) == Others(bucket, name)
  {
    hide Others;
    var k := Index(bucket, name);
    if k < |bucket| {
      OthersAt(bucket, name, k);
    } else {
      AllOthers(bucket, name);
    }
  }

  lemma {:induction false} OthersAt(bucket: seq<Pair>, name: Text, k: nat)
    requires k < |bucket| && forall i :: 0 <= i < |bucket| ==> (bucket[i].name == name <==> i == k)
    ensures Others(bucket, name) == bucket[..k] + bucket[k + 1..]
    decreases k
  {
    var rest := bucket[1..];
    if k == 0 {
      AllOthers(rest, name);
    } else {
      OthersAt(rest, name, k - 1);
      assert bucket[..k] == [bucket[0]] + rest[..k - 1] && bucket[k + 1..] == rest[k..];
    }
  }

  lemma {:induction false} AllOthers(bucket: seq<Pair>, name: Text)
    requires forall i :: 0 <= i < |bucket| ==> bucket[i].name != name
    ensures Others(bucket, name) == bucket
    decreases |bucket|
  {
    if bucket != [] {
      AllOthers(bucket[1..], name);
      assert bucket == [bucket[0]] + bucket[1..];
    }
  }

  /** A value that is set comes first in its bucket; the others keep their order, and so do all
      other buckets. */
  lemma SetComesFirst(t: Table, name: Text, value: Text, b: nat)
    requires ValidTable(t) && b < 257
    ensures Set(t, name, value)[b] == if b == Bucket(name) then [Pair(name, value)] + Others(t[b], name) else t[b]
    ensures Unset(t, name)[b] == if b == Bucket(name) then Others(t[b], name) else t[b]
  {
    hide Hash, Bucket, Without, Others;
    WithoutIsOthers(t[b], name);
  }
}
