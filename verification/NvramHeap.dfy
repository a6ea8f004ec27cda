/** The NVRAM store in memory: malloc'ed tuples linked into 257 chains, and the chain of
    dead tuples that keeps the text of replaced values alive. Proved to implement the
    table of NvramTable, and so a map. */
module NvramHeap {
  import opened Bytes
  import opened NvramTable

  const ENOMEM: int := 12

  class Tuple {
    var name: Text
    var value: Text
    var next: Tuple?
    ghost var home: int        // the bucket it is in, DEAD, or NOWHERE

    constructor (name: Text, value: Text)
      ensures this.name == name && this.value == value && home == NOWHERE
    {
      this.name, this.value, this.next, this.home := name, value, null, NOWHERE;
    }
  }

  const DEAD: int := -1
  const NOWHERE: int := -2

  /** The i-th tuple of a chain; NULL from the end on. */
  function At(chain: seq<Tuple>, i: nat): Tuple? {
    if i < |chain| then chain[i] else null
  }

  /** `chain` is what one finds by following `next` from `head`; no tuple occurs twice, and
      all of them are at home there. */
  ghost predicate Chained(head: Tuple?, chain: seq<Tuple>, home: int)
    reads chain
  {
    && head == At(chain, 0)
    && (forall i :: 0 <= i < |chain| ==> chain[i].next == At(chain, i + 1))
    && (forall i :: 0 <= i < |chain| ==> chain[i].home == home)
    && (forall i, j :: 0 <= i < j < |chain| ==> chain[i] != chain[j])
  }

  /** `chain` holds the texts of `bucket`, in order. */
  ghost predicate Holds(chain: seq<Tuple>, bucket: seq<Pair>)
    reads chain
  {
    && |chain| == |bucket|
    && forall i :: 0 <= i < |chain| ==> chain[i].name == bucket[i].name && chain[i].value == bucket[i].value
  }

  /** The tuple is in a bucket or on the dead list. */
  ghost predicate Held(x: Tuple, chains: seq<seq<Tuple>>, graveyard: seq<Tuple>) {
    x in graveyard || exists b :: 0 <= b < |chains| && x in chains[b]
  }

  lemma MovedHeld(x: Tuple, chains: seq<seq<Tuple>>, graveyard: seq<Tuple>, b: nat, k: nat)
    requires b < |chains| && k < |chains[b]| && Held(x, chains, graveyard)
    ensures Held(x, chains[b := chains[b][..k] + chains[b][k + 1..]], [chains[b][k]] + graveyard)
  {
    var chain := chains[b];
    var rest := chain[..k] + chain[k + 1..];
    var after := chains[b := rest];
    if x !in graveyard && x != chain[k] {
      var c :| 0 <= c < |chains| && x in chains[c];
      if c == b {
        var i :| 0 <= i < |chain| && chain[i] == x;
        assert rest[if i < k then i else i - 1] == x;
      }
      assert x in after[c];
    }
  }

  lemma PushedHeld(x: Tuple, chains: seq<seq<Tuple>>, graveyard: seq<Tuple>, b: nat, u: Tuple)
    requires b < |chains| && (x == u || Held(x, chains, graveyard))
    ensures Held(x, chains[b := [u] + chains[b]], graveyard)
  {
    var after := chains[b := [u] + chains[b]];
    if x == u {
      assert x in after[b];
    } else if x !in graveyard {
      var c :| 0 <= c < |chains| && x in chains[c];
      assert x in after[c];
    }
  }

  class Nvram {
    const hash: array<Tuple?>
    var dead: Tuple?
    ghost var chains: seq<seq<Tuple>>
    ghost var table: Table
    ghost var graveyard: seq<Tuple>
    ghost var live: set<Tuple>

    ghost predicate Alive(list: seq<Tuple>)
      reads this`live
    {
      forall i :: 0 <= i < |list| ==> list[i] in live
    }

    /** Every chain is linked from its slot and holds its bucket of `table`, the dead list is
        linked too, and every tuple is at home in at most one of them. */
    ghost predicate Valid()
      reads this, hash, live
    {
      && hash.Length == BUCKETS == |chains|
      && ValidTable(table)
      && Alive(graveyard) && Chained(dead, graveyard, DEAD)
      && forall b :: 0 <= b < BUCKETS ==> Alive(chains[b]) && Chained(hash[b], chains[b], b) && Holds(chains[b], table[b])
    }

    /** Every allocated tuple is in one of the lists. */
    ghost predicate NoLeak()
      reads this`chains, this`graveyard, this`live
    {
      forall x :: x in live ==> Held(x, chains, graveyard)
    }

    constructor ()
      ensures Valid() && NoLeak() && table == Empty() && live == {} && fresh(hash)
    {
      hash := new Tuple?[BUCKETS](_ => null);
      dead := null;
      chains, table, graveyard, live := seq(BUCKETS, _ => []), Empty(), [], {};
    }

    /** Walks bucket `b` to the tuple called `name`, remembering where it came from. */
    method Find(b: nat, name: Text) returns (prev: Tuple?, t: Tuple?, ghost k: nat)
      requires Valid() && b < BUCKETS
      ensures k == Index(table[b], name) <= |chains[b]| == |table[b]|
      ensures t == At(chains[b], k)
      ensures prev == if k > 0 then chains[b][k - 1] else null
    {
      hide Hash, Bucket, ValidTable;
      ghost var chain := chains[b];
      assert Chained(hash[b], chain, b) && Holds(chain, table[b]);
      prev, t, k := null, hash[b], 0;
      while t != null && t.name != name
        invariant k <= |chain| && t == At(chain, k)
        invariant prev == if k > 0 then chain[k - 1] else null
        invariant forall i :: 0 <= i < k ==> chain[i].name != name
        decreases |chain| - k
      {
        prev, t, k := t, t.next, k + 1;
      }
      assert forall i :: 0 <= i < k ==> chain[i].name == table[b][i].name;
      IndexIs(table[b], name, k);
    }

    /** The value stored under a name. The pointer leads into a live tuple. */
    method Get(name: Option<Text>) returns (t: Tuple?)
      requires Valid()
      ensures name == None ==> t == null
      ensures name.Some? ==> Lookup(table, name.value) == (if t == null then None else Some(t.value))
      ensures t != null ==> t in live && t.name == name.value
    {
      hide Hash, Bucket, ValidTable;
      if name == None { return null; }
      var b := HashOf(name.value);
      assert Holds(chains[b], table[b]) && Alive(chains[b]);
      var prev;
      ghost var k;
      prev, t, k := Find(b, name.value);
    }

    /** A tuple at home elsewhere is not in bucket `c`. */
    lemma NotIn(t: Tuple, c: nat)
      requires Valid() && c < BUCKETS && t.home != c
      ensures t !in chains[c]
    {
      assert Chained(hash[c], chains[c], c);
    }

    lemma AliveWithout(chain: seq<Tuple>, k: nat)
      requires k < |chain| && Alive(chain)
      ensures Alive(chain[..k] + chain[k + 1..])
    {
      var c := chain[..k] + chain[k + 1..];
      assert forall i :: 0 <= i < |c| ==> c[i] == chain[if i < k then i else i + 1];
    }

    /** Notes that bucket `b` is now this chain with these pairs. */
    ghost method Rebind(b: nat, chain: seq<Tuple>, bucket: seq<Pair>)
      requires hash.Length == BUCKETS == |chains| && b < BUCKETS
      requires Alive(graveyard) && Chained(dead, graveyard, DEAD)
      requires forall c :: 0 <= c < BUCKETS && c != b ==> Alive(chains[c]) && Chained(hash[c], chains[c], c) && Holds(chains[c], table[c])
      requires Alive(chain) && Chained(hash[b], chain, b) && Holds(chain, bucket)
      requires ValidTable(table[b := bucket])
      modifies this`chains, this`table
      ensures Valid() && table == old(table)[b := bucket] && chains == old(chains)[b := chain]
    {
      hide Hash, Bucket, ValidTable, Chained, Holds, Alive;
      chains := chains[b := chain];
      table := table[b := bucket];
      forall c | 0 <= c < BUCKETS ensures Alive(chains[c]) && Chained(hash[c], chains[c], c) && Holds(chains[c], table[c]) {
        if c != b { assert old(Alive(chains[c])); }
      }
    }

    /** Takes the first tuple out of bucket `b`. */
    method UnhookFirst(b: nat, t: Tuple)
      requires Valid() && b < BUCKETS && 0 < |chains[b]| == |table[b]| && t == chains[b][0]
      modifies this`chains, this`table, hash, t`home
      ensures Valid() && t.home == NOWHERE
      ensures table == old(table)[b := old(table)[b][..0] + old(table)[b][1..]]
      ensures chains == old(chains)[b := old(chains)[b][..0] + old(chains)[b][1..]]
    {
      hide Hash, Bucket, ValidTable, Chained, Holds;
      ghost var chain, bucket := chains[b], table[b];
      ChainOpen(hash[b], chain, b);
      ChainOpen(dead, graveyard, DEAD);
      HoldsOpen(chain, bucket);
      TableWithout(table, b, 0);
      forall c | 0 <= c < BUCKETS && c != b ensures t !in chains[c] { NotIn(t, c); }
      hash[b] := t.next;
      t.home := NOWHERE;
      Unlinked(hash[b], chain, b, 0);
      HoldsWithout(chain, bucket, 0);
      AliveWithout(chain, 0);
      Rebind(b, chain[..0] + chain[1..], bucket[..0] + bucket[1..]);
    }

    /** Takes the tuple after `prev`, the k-th, out of bucket `b`. */
    method UnhookAfter(b: nat, prev: Tuple, t: Tuple, ghost k: nat)
      requires Valid() && b < BUCKETS && 0 < k < |chains[b]| == |table[b]| && t == chains[b][k] && prev == chains[b][k - 1]
      modifies this`chains, this`table, prev`next, t`home
      ensures Valid() && t.home == NOWHERE
      ensures table == old(table)[b := old(table)[b][..k] + old(table)[b][k + 1..]]
      ensures chains == old(chains)[b := old(chains)[b][..k] + old(chains)[b][k + 1..]]
    {
      hide Hash, Bucket, ValidTable, Chained, Holds;
      ghost var chain, bucket := chains[b], table[b];
      ChainOpen(hash[b], chain, b);
      ChainOpen(dead, graveyard, DEAD);
      HoldsOpen(chain, bucket);
      TableWithout(table, b, k);
      forall c | 0 <= c < BUCKETS && c != b ensures t !in chains[c] && prev !in chains[c] { NotIn(t, c); NotIn(prev, c); }
      prev.next := t.next;
      t.home := NOWHERE;
      Unlinked(hash[b], chain, b, k);
      HoldsWithout(chain, bucket, k);
      AliveWithout(chain, k);
      Rebind(b, chain[..k] + chain[k + 1..], bucket[..k] + bucket[k + 1..]);
    }

    /** Puts a tuple that is in no list at the head of the dead list. */
    method Entomb(t: Tuple)
      requires Valid() && t in live && t.home == NOWHERE
      modifies this`dead, this`graveyard, t`next, t`home
      ensures Valid() && graveyard == [t] + old(graveyard)
    {
      hide Hash, Bucket, ValidTable, Chained, Holds;
      ChainOpen(dead, graveyard, DEAD);
      forall c | 0 <= c < BUCKETS ensures t !in chains[c] { NotIn(t, c); }
      t.next := dead;
      t.home := DEAD;
      Pushed(dead, graveyard, t, DEAD);
      dead := t;
      graveyard := [t] + graveyard;
    }

    /** Puts a tuple that is in no list at the head of its bucket. */
    method Push(b: nat, u: Tuple)
      requires Valid() && u in live && u.home == NOWHERE && b == Bucket(u.name)
      requires Index(table[b], u.name) == |table[b]|
      modifies this`chains, this`table, hash, u`next, u`home
      ensures Valid()
      ensures table == old(table)[b := [Pair(u.name, u.value)] + old(table)[b]]
      ensures chains == old(chains)[b := [u] + old(chains)[b]]
    {
      hide Hash, Bucket, ValidTable, Chained, Holds;
      ChainOpen(dead, graveyard, DEAD);
      forall c | 0 <= c < BUCKETS ensures u !in chains[c] { NotIn(u, c); }
      TablePushed(table, b, Pair(u.name, u.value));
      u.next := hash[b];
      u.home := b;
      Pushed(hash[b], chains[b], u, b);
      HoldsPushed(chains[b], table[b], u);
      hash[b] := u;
      Rebind(b, [u] + chains[b], [Pair(u.name, u.value)] + table[b]);
    }
    /** Tuples alive before are alive now, and their texts have not changed: a value pointer
        handed out by Get stays good. */
    twostate predicate TextsKept()
      reads this, live
    {
      old(live) <= live && forall x :: x in old(live) ==> x.name == old(x.name) && x.value == old(x.value)
    }

    /** Finds `name` in its bucket and, if it is there, moves its tuple to the dead list. */
    method Retire(b: nat, prev: Tuple?, t: Tuple?, ghost k: nat)
      requires Valid() && b < BUCKETS && k <= |chains[b]| == |table[b]| && t == At(chains[b], k)
      requires prev == if k > 0 then chains[b][k - 1] else null
      modifies this`dead, this`chains, this`table, this`graveyard, hash, live`next, live`home
      ensures Valid() && (old(NoLeak()) ==> NoLeak())
      ensures table == if t == null then old(table) else old(table)[b := old(table)[b][..k] + old(table)[b][k + 1..]]
    {
      hide Hash, Bucket, ValidTable, Chained, Holds;
      if t != null {
        assert Alive(chains[b]);
        if prev == null {
          UnhookFirst(b, t);
        } else {
          UnhookAfter(b, prev, t, k);
        }
        Entomb(t);
        forall x | x in live && Held(x, old(chains), old(graveyard)) ensures Held(x, chains, graveyard) {
          MovedHeld(x, old(chains), old(graveyard), b, k);
        }
      }
    }

    /** malloc's result joins the live tuples. */
    ghost method Adopt(u: Tuple)
      requires Valid()
      modifies this`live
      ensures Valid() && live == old(live) + {u}
    {
      hide Hash, Bucket, ValidTable, Chained, Holds;
      live := live + {u};
      assert Alive(graveyard);
      forall b | 0 <= b < BUCKETS ensures Alive(chains[b]) { assert old(Alive(chains[b])); }
    }

    /** Puts the new tuple `u` where the k-th of its bucket, if any, was its namesake. */
    method Replace(b: nat, prev: Tuple?, t: Tuple?, u: Tuple, ghost k: nat)
      requires Valid() && b == Bucket(u.name) && k == Index(table[b], u.name) <= |chains[b]| == |table[b]|
      requires t == At(chains[b], k) && prev == if k > 0 then chains[b][k - 1] else null
      requires u !in live && u.home == NOWHERE
      modifies this`dead, this`chains, this`table, this`graveyard, this`live, hash, live`next, live`home, u`next, u`home
      ensures Valid() && live == old(live) + {u} && (old(NoLeak()) ==> NoLeak())
      ensures table == Set(old(table), u.name, u.value)
    {
      hide Hash, Bucket, ValidTable, Chained, Holds, Held;
      BucketDistinct(table, b);
      WithoutLosesOnly(table[b], u.name);
      Retire(b, prev, t, k);
      Adopt(u);
      ghost var before := chains;
      Push(b, u);
      if old(NoLeak()) {
        forall x | x in live ensures Held(x, chains, graveyard) {
          PushedHeld(x, before, graveyard, b, u);
        }
      }
    }

    /** Stores a value; when malloc fails, says so and changes nothing. */
    method SetValue(name: Text, value: Text, mallocOk: bool) returns (rc: int)
      requires Valid()
      modifies this`dead, this`chains, this`table, this`graveyard, this`live, hash, live`next, live`home
      ensures Valid() && TextsKept() && fresh(live - old(live)) && (old(NoLeak()) ==> NoLeak())
      ensures rc == if mallocOk then 0 else -ENOMEM
      ensures table == if mallocOk then Set(old(table), name, value) else old(table)
    {
      hide Hash, Bucket, ValidTable, Chained, Holds, Set, Index;
      var b := HashOf(name);
      var prev, t;
      ghost var k;
      prev, t, k := Find(b, name);
      if !mallocOk {
        return -ENOMEM;
      }
      var u := new Tuple(name, value);
      Replace(b, prev, t, u, k);
      return 0;
    }

    /** Removes a name, if it is there. */
    method UnsetValue(name: Option<Text>) returns (rc: int)
      requires Valid()
      modifies this`dead, this`chains, this`table, this`graveyard, hash, live`next, live`home
      ensures Valid() && TextsKept() && live == old(live) && (old(NoLeak()) ==> NoLeak())
      ensures rc == 0
      ensures table == if name == None then old(table) else Unset(old(table), name.value)
    {
      hide Hash, Bucket, ValidTable, Chained, Holds;
      if name == None { return 0; }
      var b := HashOf(name.value);
      var prev, t;
      ghost var k;
      prev, t, k := Find(b, name.value);
      Retire(b, prev, t, k);
      return 0;
    }
    /** free(): only a tuple that is still allocated may be given back. */
    ghost method FreeTuple(t: Tuple)
      requires t in live
      modifies this`live
      ensures live == old(live) - {t}
    {
      live := live - {t};
    }

    /** Frees a whole list, reading each link before its tuple goes. */
    method FreeList(head: Tuple?, ghost list: seq<Tuple>, ghost home: int)
      requires Chained(head, list, home) && Alive(list)
      modifies this`live
      ensures live == old(live) - set x | x in list
    {
      var t := head;
      ghost var k := 0;
      while t != null
        invariant k <= |list| && t == At(list, k)
        invariant live == old(live) - set x | x in list[..k]
        decreases |list| - k
      {
        assert t !in list[..k];
        var next := t.next;
        FreeTuple(t);
        assert list[..k + 1] == list[..k] + [t];
        t, k := next, k + 1;
      }
      assert list[..|list|] == list;
    }

    /** Freeing one list leaves every other list alone. */
    lemma AliveStill(before: set<Tuple>, head: Tuple?, gone: seq<Tuple>, home: int, head': Tuple?, list: seq<Tuple>, home': int)
      requires Chained(head, gone, home) && Chained(head', list, home') && home != home'
      requires live == before - set x | x in gone
      requires forall i :: 0 <= i < |list| ==> list[i] in before
      ensures Alive(list)
    {
    }

    /** Frees every tuple, each once and never after it is gone; the store is empty then. */
    method Free()
      requires Valid()
      modifies this, hash
      ensures Valid() && table == Empty() && chains == seq(BUCKETS, _ => []) && graveyard == []
      ensures live <= old(live) && (old(NoLeak()) ==> live == {} && NoLeak())
      ensures forall b, i :: 0 <= b < BUCKETS && 0 <= i < |old(chains)[b]| ==> old(chains)[b][i] !in live
      ensures forall i :: 0 <= i < |old(graveyard)| ==> old(graveyard)[i] !in live
    {
      hide Hash, Bucket, ValidTable, Holds, Chained;
      var b := 0;
      while b < BUCKETS
        invariant b <= BUCKETS && hash.Length == BUCKETS && dead == old(dead)
        invariant chains == old(chains) && graveyard == old(graveyard) && live <= old(live)
        invariant forall c :: 0 <= c < b ==> hash[c] == null
        invariant forall c, i :: 0 <= c < b && 0 <= i < |chains[c]| ==> chains[c][i] !in live
        invariant forall c :: b <= c < BUCKETS ==> hash[c] == old(hash[c]) && Alive(chains[c])
        invariant Alive(graveyard)
      {
        ghost var before := live;
        assert old(Chained(hash[b], chains[b], b) && Chained(dead, graveyard, DEAD));
        FreeList(hash[b], chains[b], b);
        AliveStill(before, hash[b], chains[b], b, dead, graveyard, DEAD);
        forall c | b < c < BUCKETS ensures Alive(chains[c]) {
          assert old(Chained(hash[c], chains[c], c));
          AliveStill(before, hash[b], chains[b], b, hash[c], chains[c], c);
        }
        hash[b] := null;
        b := b + 1;
      }
      FreeList(dead, graveyard, DEAD);
      dead := null;
      chains, table, graveyard := seq(BUCKETS, _ => []), Empty(), [];
      EmptyTable([]);
      EmptyChains();
    }
  }

  lemma EmptyChains()
    ensures Holds([], []) && forall home :: Chained(null, [], home)
  {
  }

  lemma BucketDistinct(t: Table, b: nat)
    requires ValidTable(t) && b < BUCKETS
    ensures Distinct(t[b]) && InPlace(t[b], b)
  {
  }

  // ---------------------------------------------------------------- what link updates do to a chain

  lemma ChainOpen(head: Tuple?, chain: seq<Tuple>, home: int)
    requires Chained(head, chain, home)
    ensures head == At(chain, 0)
    ensures forall i :: 0 <= i < |chain| ==> chain[i].next == At(chain, i + 1)
    ensures forall i :: 0 <= i < |chain| ==> chain[i].home == home
    ensures forall i, j :: 0 <= i < j < |chain| ==> chain[i] != chain[j]
  {
  }

  lemma HoldsOpen(chain: seq<Tuple>, bucket: seq<Pair>)
    requires Holds(chain, bucket)
    ensures |chain| == |bucket|
    ensures forall i :: 0 <= i < |chain| ==> chain[i].name == bucket[i].name && chain[i].value == bucket[i].value
  {
  }

  /** Bypassing the k-th tuple removes it and nothing else. */
  lemma Unlinked(head: Tuple?, chain: seq<Tuple>, home: int, k: nat)
    requires k < |chain|
    requires head == At(chain, if k == 0 then 1 else 0)
    requires forall i :: 0 <= i < |chain| && i != k && i + 1 != k ==> chain[i].next == At(chain, i + 1)
    requires k > 0 ==> chain[k - 1].next == At(chain, k + 1)
    requires forall i :: 0 <= i < |chain| && i != k ==> chain[i].home == home
    requires forall i, j :: 0 <= i < j < |chain| ==> chain[i] != chain[j]
    ensures Chained(head, chain[..k] + chain[k + 1..], home)
  {
    var c := chain[..k] + chain[k + 1..];
    assert forall i :: 0 <= i < |c| ==> c[i] == chain[if i < k then i else i + 1];
  }

  lemma Pushed(head: Tuple?, chain: seq<Tuple>, t: Tuple, home: int)
    requires Chained(head, chain, home) && t !in chain && t.next == head && t.home == home
    ensures Chained(t, [t] + chain, home)
  {
  }

  lemma HoldsWithout(chain: seq<Tuple>, bucket: seq<Pair>, k: nat)
    requires |chain| == |bucket| && k < |chain|
    requires forall i :: 0 <= i < |chain| ==> chain[i].name == bucket[i].name && chain[i].value == bucket[i].value
    ensures Holds(chain[..k] + chain[k + 1..], bucket[..k] + bucket[k + 1..])
  {
  }

  lemma HoldsPushed(chain: seq<Tuple>, bucket: seq<Pair>, t: Tuple)
    requires Holds(chain, bucket)
    ensures Holds([t] + chain, [Pair(t.name, t.value)] + bucket)
  {
  }

  lemma TablePushed(t: Table, b: nat, p: Pair)
    requires ValidTable(t) && b == Bucket(p.name) && Index(t[b], p.name) == |t[b]|
    ensures ValidTable(t[b := [p] + t[b]])
  {
    hide Hash, Bucket;
    assert InPlace(t[b], b) && Distinct(t[b]);
    assert InPlace([p] + t[b], b) && Distinct([p] + t[b]);
  }

  lemma TableWithout(t: Table, b: nat, k: nat)
    requires ValidTable(t) && b < BUCKETS && k < |t[b]|
    ensures ValidTable(t[b := t[b][..k] + t[b][k + 1..]])
  {
    hide Hash, Bucket;
    var w := t[b][..k] + t[b][k + 1..];
    assert forall i :: 0 <= i < |w| ==> w[i] == t[b][if i < k then i else i + 1];
    assert InPlace(t[b], b) && Distinct(t[b]);
    assert InPlace(w, b) && Distinct(w);
  }
}
