/** What a commit keeps: the table read back from an image, against the table written. */
module NvramRoundTrip {
  import opened Bytes
  import opened NvramTable
  import opened NvramImage

  function SetAll(t: Table, pairs: seq<Pair>): Table {
    if pairs == [] then t
    else
      var last := pairs[|pairs| - 1];
      Set(SetAll(t, pairs[..|pairs| - 1]), last.name, last.value)
  }

  /** The value a list gives to a name: its last mention wins. */
  function Last(pairs: seq<Pair>, name: Text): Option<Text> {
    if pairs == [] then None
    else if pairs[|pairs| - 1].name == name then Some(pairs[|pairs| - 1].value)
    else Last(pairs[..|pairs| - 1], name)
  }

  lemma {:induction false} SetAllLookup(t: Table, pairs: seq<Pair>, name: Text)
    requires ValidTable(t)
    ensures ValidTable(SetAll(t, pairs))
    ensures Lookup(SetAll(t, pairs), name) == if Last(pairs, name) == None then Lookup(t, name) else Last(pairs, name)
    decreases |pairs|
  {
    hide Set, Lookup, ValidTable;
    if pairs != [] {
      var last := pairs[|pairs| - 1];
      SetAllLookup(t, pairs[..|pairs| - 1], name);
      SetIsUpdate(SetAll(t, pairs[..|pairs| - 1]), last.name, last.value, name);
    }
  }

  lemma {:induction false} LastConcat(a: seq<Pair>, b: seq<Pair>, name: Text)
    ensures Last(a + b, name) == if Last(b, name) == None then Last(a, name) else Last(b, name)
    decreases |b|
  {
    if b == [] {
      assert a + b == a;
    } else {
      assert (a + b)[..|a + b| - 1] == a + b[..|b| - 1];
      LastConcat(a, b[..|b| - 1], name);
    }
  }

  lemma {:induction false} LastAbsent(pairs: seq<Pair>, name: Text)
    requires forall i :: 0 <= i < |pairs| ==> pairs[i].name != name
    ensures Last(pairs, name) == None
    decreases |pairs|
  {
    if pairs != [] { LastAbsent(pairs[..|pairs| - 1], name); }
  }

  lemma LastAt(pairs: seq<Pair>, name: Text, k: nat)
    requires k < |pairs| && pairs[k].name == name && forall i :: k < i < |pairs| ==> pairs[i].name != name
    ensures Last(pairs, name) == Some(pairs[k].value)
  {
    assert pairs == pairs[..k + 1] + pairs[k + 1..];
    LastConcat(pairs[..k + 1], pairs[k + 1..], name);
    LastAbsent(pairs[k + 1..], name);
    assert pairs[..k + 1][k] == pairs[k];
  }

  /** A leading part of a bucket knows the names it contains, with their values. */
  lemma LastPrefix(bucket: seq<Pair>, n: nat, name: Text)
    requires Distinct(bucket) && n <= |bucket|
    ensures var k := Index(bucket, name);
            Last(bucket[..n], name) == if k < n then Some(bucket[k].value) else None
  {
    var k := Index(bucket, name);
    if k < n {
      LastAt(bucket[..n], name, k);
    } else {
      LastAbsent(bucket[..n], name);
    }
  }

  lemma LastElsewhere(bucket: seq<Pair>, b: nat, n: nat, name: Text)
    requires InPlace(bucket, b) && n <= |bucket| && Bucket(name) != b
    ensures Last(bucket[..n], name) == None
  {
    hide Hash, Bucket;
    LastAbsent(bucket[..n], name);
  }

  /** How many pairs of bucket `c` get written. */
  function Kept(t: Table, c: nat, room: nat): (n: nat)
    requires c < BUCKETS
    ensures n <= |t[c]|
  {
    WrittenFits(t, c, room);
    var used := |Serialize(Written(t, c, room))|;
    FittingFits(t[c], used, room);
    |Fitting(t[c], used, room)|
  }

  lemma KeptFitting(t: Table, c: nat, room: nat)
    requires c < BUCKETS
    ensures Fitting(t[c], |Serialize(Written(t, c, room))|, room) == t[c][..Kept(t, c, room)]
  {
    WrittenFits(t, c, room);
    FittingFits(t[c], |Serialize(Written(t, c, room))|, room);
  }

  /** What the written pairs say of a name: its value, if its pair is among those kept. */
  lemma {:induction false} WrittenLookup(t: Table, b: nat, room: nat, name: Text)
    requires ValidTable(t) && b <= BUCKETS
    ensures var c := Bucket(name);
            var k := Index(t[c], name);
            Last(Written(t, b, room), name) == if c < b && k < Kept(t, c, room) then Some(t[c][k].value) else None
    decreases b
  {
    hide Hash, Bucket, Fitting, Kept, Serialize;
    if b > 0 {
      WrittenLookup(t, b - 1, room, name);
      KeptFitting(t, b - 1, room);
      var n := Kept(t, b - 1, room);
      assert InPlace(t[b - 1], b - 1) && Distinct(t[b - 1]);
      LastConcat(Written(t, b - 1, room), t[b - 1][..n], name);
      if Bucket(name) == b - 1 {
        LastPrefix(t[b - 1], n, name);
      } else {
        LastElsewhere(t[b - 1], b - 1, n, name);
      }
    }
  }

  // ---------------------------------------------------------------- the round trip

  /** The table after a commit has been read back, before any defaults are added. */
  function Reloaded(t: Table, room: nat): Table {
    SetAll(Empty(), RereadAll(Written(t, BUCKETS, room)))
  }

  predicate AllFits(t: Table, room: nat) { |Serialize(Flat(t, BUCKETS))| <= room }

  /** No stored name contains '='. */
  predicate Clean(t: Table) {
    forall b, i :: 0 <= b < BUCKETS && 0 <= i < |t[b]| ==> NoEq(t[b][i].name)
  }

  lemma ReloadedLookup(t: Table, room: nat, name: Text)
    requires ValidTable(t)
    ensures ValidTable(Reloaded(t, room))
    ensures Lookup(Reloaded(t, room), name) == Last(RereadAll(Written(t, BUCKETS, room)), name)
  {
    hide Set, Lookup, Bucket, Reread;
    EmptyTable(name);
    SetAllLookup(Empty(), RereadAll(Written(t, BUCKETS, room)), name);
  }

  lemma {:induction false} WrittenClean(t: Table, b: nat, room: nat)
    requires Clean(t) && b <= BUCKETS
    ensures RereadAll(Written(t, b, room)) == Written(t, b, room)
    decreases b
  {
    hide Kept, Fitting, Serialize;
    if b > 0 {
      WrittenClean(t, b - 1, room);
      KeptFitting(t, b - 1, room);
      var w, v := Written(t, b - 1, room), t[b - 1][..Kept(t, b - 1, room)];
      assert Written(t, b, room) == w + v;
      forall i | 0 <= i < |w + v| ensures Reread((w + v)[i]) == (w + v)[i] {
        if i < |w| { assert RereadAll(w)[i] == Reread(w[i]); } else { assert (w + v)[i] == t[b - 1][i - |w|]; }
      }
    }
  }

  /** Whether or not everything fitted: a clean table never comes back with a value it did
      not hold, and keeps exactly the pairs that were written. */
  lemma ReloadedIsSubset(t: Table, room: nat, name: Text)
    requires ValidTable(t) && Clean(t)
    ensures var c := Bucket(name);
            Lookup(Reloaded(t, room), name)
            == if Index(t[c], name) < Kept(t, c, room) then Lookup(t, name) else None
  {
    hide Hash, Bucket, Kept, Written, Reread, Set;
    ReloadedLookup(t, room, name);
    WrittenClean(t, BUCKETS, room);
    WrittenLookup(t, BUCKETS, room, name);
  }

  lemma {:induction false} FlatGrows(t: Table, b: nat, c: nat)
    requires b <= c <= BUCKETS
    ensures |Serialize(Flat(t, b))| <= |Serialize(Flat(t, c))|
    decreases c - b
  {
    hide Serialize;
    if b < c {
      FlatGrows(t, b, c - 1);
      SerializeConcat(Flat(t, c - 1), t[c - 1]);
    }
  }

  lemma {:induction false} AllKeptIsFlat(t: Table, b: nat, room: nat)
    requires b <= BUCKETS && forall c :: 0 <= c < b ==> Kept(t, c, room) == |t[c]|
    ensures Written(t, b, room) == Flat(t, b)
    decreases b
  {
    hide Kept, Fitting, Serialize;
    if b > 0 {
      AllKeptIsFlat(t, b - 1, room);
      KeptFitting(t, b - 1, room);
    }
  }

  /** Every bucket is written whole if and only if all tuples fit. */
  lemma AllKeptIffFits(t: Table, room: nat)
    ensures AllFits(t, room) <==> forall c :: 0 <= c < BUCKETS ==> Kept(t, c, room) == |t[c]|
  {
    hide Fitting, Serialize, Kept, Written, Flat;
    WrittenFits(t, BUCKETS, room);
    if AllFits(t, room) {
      forall c | 0 <= c < BUCKETS ensures Kept(t, c, room) == |t[c]| {
        FitsUpTo(t, c, room);
      }
    } else if forall c :: 0 <= c < BUCKETS ==> Kept(t, c, room) == |t[c]| {
      AllKeptIsFlat(t, BUCKETS, room);
    }
  }

  lemma FitsUpTo(t: Table, c: nat, room: nat)
    requires c < BUCKETS && AllFits(t, room)
    ensures Kept(t, c, room) == |t[c]|
  {
    hide Fitting, Serialize;
    FlatGrows(t, c, BUCKETS);
    FlatGrows(t, c + 1, BUCKETS);
    WrittenFits(t, c, room);
    SerializeConcat(Flat(t, c), t[c]);
    FittingFits(t[c], |Serialize(Flat(t, c))|, room);
  }

  /** A name with an '=' in it is gone after a reload. */
  lemma UncleanIsLost(t: Table, room: nat, name: Text)
    requires ValidTable(t) && !NoEq(name)
    ensures Lookup(Reloaded(t, room), name) == None
  {
    hide Written, Set, Lookup, Bucket;
    ReloadedLookup(t, room, name);
    LastAbsent(RereadAll(Written(t, BUCKETS, room)), name);
  }

  lemma StoredLookup(t: Table, b: nat, i: nat)
    requires ValidTable(t) && b < BUCKETS && i < |t[b]|
    ensures Bucket(t[b][i].name) == b && Index(t[b], t[b][i].name) == i && Lookup(t, t[b][i].name) == Some(t[b][i].value)
  {
    hide Hash, Bucket;
    assert InPlace(t[b], b) && Distinct(t[b]);
    IndexIs(t[b], t[b][i].name, i);
  }

  /** The round trip, exactly: reading back what was committed gives the same map if and
      only if all tuples fitted and no name contains '='. */
  lemma RoundTripIff(t: Table, room: nat)
    requires ValidTable(t)
    ensures (forall name: Text :: Lookup(Reloaded(t, room), name) == Lookup(t, name))
            <==> AllFits(t, room) && Clean(t)
  {
    hide Hash, Bucket, Kept, Reloaded, AllFits, Lookup, ValidTable;
    AllKeptIffFits(t, room);
    if AllFits(t, room) && Clean(t) {
      forall name: Text ensures Lookup(Reloaded(t, room), name) == Lookup(t, name) {
        ReloadedIsSubset(t, room, name);
        AbsentLookup(t, name);
      }
    } else if !Clean(t) {
      var b, i :| 0 <= b < BUCKETS && 0 <= i < |t[b]| && !NoEq(t[b][i].name);
      UncleanIsLost(t, room, t[b][i].name);
      StoredLookup(t, b, i);
    } else {
      var c :| 0 <= c < BUCKETS && Kept(t, c, room) != |t[c]|;
      var k := Kept(t, c, room);
      StoredLookup(t, c, k);
      ReloadedIsSubset(t, room, t[c][k].name);
    }
  }

  lemma AbsentLookup(t: Table, name: Text)
    ensures Lookup(t, name) == None <==> Index(t[Bucket(name)], name) == |t[Bucket(name)]|
  {
  }

  // ---------------------------------------------------------------- defaults

  /** The parameters that must be present, with what to use when they are not. */
  function WithDefaults(t: Table, defaults: seq<Pair>): Table {
    if defaults == [] then t
    else
      var before := WithDefaults(t, defaults[..|defaults| - 1]);
      var d := defaults[|defaults| - 1];
      if Lookup(before, d.name) == None then Set(before, d.name, d.value) else before
  }

  /** The first default given for a name. */
  function First(defaults: seq<Pair>, name: Text): Option<Text> {
    if defaults == [] then None
    else
      var before := First(defaults[..|defaults| - 1], name);
      if before == None && defaults[|defaults| - 1].name == name then Some(defaults[|defaults| - 1].value) else before
  }

  /** Defaults fill in what is missing and touch nothing that is there. */
  lemma {:induction false} DefaultsLookup(t: Table, defaults: seq<Pair>, name: Text)
    requires ValidTable(t)
    ensures ValidTable(WithDefaults(t, defaults))
    ensures Lookup(WithDefaults(t, defaults), name) == if Lookup(t, name) == None then First(defaults, name) else Lookup(t, name)
    decreases |defaults|
  {
    hide Set, Lookup, ValidTable;
    if defaults != [] {
      DefaultsLookup(t, defaults[..|defaults| - 1], name);
      var d := defaults[|defaults| - 1];
      SetIsUpdate(WithDefaults(t, defaults[..|defaults| - 1]), d.name, d.value, name);
    }
  }

  /** After commit and reload of a clean table: every name that was written has its value,
      the required parameters exist, and nothing else does. */
  lemma AfterReload(t: Table, room: nat, defaults: seq<Pair>, name: Text)
    requires ValidTable(t) && Clean(t)
    ensures ValidTable(WithDefaults(Reloaded(t, room), defaults))
    ensures var after := Lookup(WithDefaults(Reloaded(t, room), defaults), name);
            && (AllFits(t, room) ==> after == if Lookup(t, name) == None then First(defaults, name) else Lookup(t, name))
            && (after == Lookup(t, name) || after == First(defaults, name))
  {
    hide Hash, Bucket, Kept, Reloaded, AllFits, Lookup, ValidTable, WithDefaults, First;
    ReloadedLookup(t, room, name);
    DefaultsLookup(Reloaded(t, room), defaults, name);
    ReloadedIsSubset(t, room, name);
    RoundTripIff(t, room);
  }
}
