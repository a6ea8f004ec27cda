/** Commit, reload and check of the NVRAM image: the imperative code over the linked
    tuples and the image buffer. */
module NvramStore {
  import opened Bytes
  import opened NvramTable
  import opened NvramHeap
  import opened NvramImage
  import opened NvramRoundTrip
  import Crc

  // ---------------------------------------------------------------- the image

  const HEADER_SIZE: nat := 20

  /** A buffer of CONFIG_NVRAM_SIZE bytes: the header words and the data area. */
  class Buffer {
    var magic: bv32
    var len: nat
    var crcVerInit: bv32
    var configRefresh: bv32
    var configNcdl: bv32
    const data: array<Octet>

    constructor (size: nat)
      ensures data.Length == size && fresh(data)
    {
      data := new Octet[size](_ => 0);
      magic, len, crcVerInit, configRefresh, configNcdl := 0, 0, 0, 0, 0;
    }

    ghost function Value(): Blob
      reads this, data
    {
      Blob(crcVerInit, configRefresh, configNcdl, len, data[..])
    }
  }

  datatype Blob = Blob(crcVerInit: bv32, configRefresh: bv32, configNcdl: bv32, len: nat, data: seq<Octet>)

  function Octets(w: bv32): seq<Octet> {
    [(w & 0xFF) as bv8, ((w >> 8) & 0xFF) as bv8, ((w >> 16) & 0xFF) as bv8, ((w >> 24) & 0xFF) as bv8]
  }

  /** The checksum byte of the first header word, and that word without it. */
  function CrcByte(w: bv32): bv8 { (w & 0xFF) as bv8 }

  function Masked(w: bv32): bv32 { w & 0xFFFFFF00 }

  /** The checksummed header bytes: the last eleven, little-endian. */
  function HeaderBytes(crcVerInit: bv32, configRefresh: bv32, configNcdl: bv32): seq<Octet> {
    Octets(Masked(crcVerInit))[1..] + Octets(configRefresh) + Octets(configNcdl)
  }

  /** Everything under the checksum. */
  function Covered(b: Blob): seq<Octet>
    requires HEADER_SIZE <= b.len <= HEADER_SIZE + |b.data|
  {
    HeaderBytes(b.crcVerInit, b.configRefresh, b.configNcdl) + b.data[..b.len - HEADER_SIZE]
  }

  const CRC8_INIT_VALUE: bv8 := 0xFF

  /** The test made on an image found in flash. */
  predicate Passes(b: Blob) {
    && HEADER_SIZE <= b.len <= HEADER_SIZE + |b.data|
    && CrcByte(b.crcVerInit) == Crc.Checksum8(CRC8_INIT_VALUE, Covered(b))
  }

  /** nvram_calc_crc: the header part, then on over the data. */
  method CalcCrc(nvh: Buffer) returns (crc: bv8)
    requires HEADER_SIZE <= nvh.len <= HEADER_SIZE + nvh.data.Length
    ensures crc == Crc.Checksum8(CRC8_INIT_VALUE, Covered(nvh.Value()))
  {
    hide HeaderBytes, Crc.Checksum8;
    var header := HeaderBytes(nvh.crcVerInit, nvh.configRefresh, nvh.configNcdl);
    var body := nvh.data[..nvh.len - HEADER_SIZE];
    crc := Crc.Hndcrc8(header, CRC8_INIT_VALUE);
    crc := Crc.Hndcrc8(body, crc);
    Crc.Checksum8Concat(CRC8_INIT_VALUE, header, body);
    assert nvh.data[..][..nvh.len - HEADER_SIZE] == body;
  }

  /** Changing any single byte under the checksum makes the test fail. */
  lemma SingleByteCaught(good: Blob, bad: Blob, i: nat)
    requires Passes(good) && bad.len == good.len && |bad.data| == |good.data|
    requires CrcByte(bad.crcVerInit) == CrcByte(good.crcVerInit)
    requires i < |Covered(good)| == |Covered(bad)| && Covered(bad)[i] != Covered(good)[i]
    requires forall j :: 0 <= j < |Covered(good)| && j != i ==> Covered(bad)[j] == Covered(good)[j]
    ensures !Passes(bad)
  {
    hide Covered;
    var x := Covered(bad)[i];
    assert Covered(bad) == Covered(good)[i := x];
    Crc.Checksum8SeesByte(CRC8_INIT_VALUE, Covered(good), i, x);
  }

  // ---------------------------------------------------------------- writing the tuples

  /** sprintf "%s=%s" with its NUL, into the buffer at `ptr`. */
  method PutTuple(data: array<Octet>, ptr: nat, name: Text, value: Text) returns (next: nat)
    requires ptr + |name| + |value| + 2 <= data.Length
    modifies data
    ensures next == ptr + |Entry(Pair(name, value))|
    ensures data[..next] == old(data[..ptr]) + Entry(Pair(name, value)) && data[next..] == old(data[next..])
  {
    var text := name + [EQ] + value + [0];
    var i := 0;
    while i < |text|
      invariant 0 <= i <= |text|
      invariant forall k :: 0 <= k < data.Length && !(ptr <= k < ptr + i) ==> data[k] == old(data[k])
      invariant forall k :: ptr <= k < ptr + i ==> data[k] == text[k - ptr]
    {
      data[ptr + i] := text[i];
      i := i + 1;
    }
    next := ptr + i;
  }

  /** The tuples written so far, and nothing but zeros after them. */
  ghost predicate Holding(data: array<Octet>, ptr: nat, pairs: seq<Pair>)
    reads data
  {
    && ptr == |Serialize(pairs)| && ptr <= data.Length && data[..ptr] == Serialize(pairs)
    && forall i :: ptr <= i < data.Length ==> data[i] == 0
  }

  /** One bucket: tuples while they fit. */
  method WriteBucket(nv: Nvram, b: nat, data: array<Octet>, start: nat, ghost before: seq<Pair>) returns (ptr: nat)
    requires nv.Valid() && data as object != nv.hash && b < BUCKETS && data.Length >= 2 && start <= data.Length - 2 && Holding(data, start, before)
    modifies data
    ensures ptr <= data.Length - 2
    ensures Holding(data, ptr, before + Fitting(nv.table[b], start, data.Length - 2))
  {
    hide Serialize, Entry, Holding, Fitting, Nvram.Valid, BucketIs;
    OpenBucket(nv, b);
    ghost var chain, bucket := nv.chains[b], nv.table[b];
    var end := data.Length - 2;
    var t := nv.hash[b];
    ptr := start;
    ghost var k := 0;
    assert before + bucket[..0] == before && bucket[0..] == bucket && [] + Fitting(bucket, start, end) == Fitting(bucket, start, end);
    while t != null
      invariant k <= |chain| == |bucket| && t == At(chain, k) && BucketIs(chain, bucket)
      invariant ptr <= end && Holding(data, ptr, before + bucket[..k])
      invariant Fitting(bucket, start, end) == bucket[..k] + Fitting(bucket[k..], ptr, end)
      decreases |chain| - k
    {
      FittingStep(bucket, k, ptr, end);
      BucketStep(chain, bucket, k);
      if ptr + |t.name| + 1 + |t.value| + 1 > end {
        break;
      }
      ptr := AppendTuple(data, ptr, t.name, t.value, before + bucket[..k]);
      assert before + bucket[..k] + [bucket[k]] == before + bucket[..k + 1];
      t, k := t.next, k + 1;
    }
    FittingEnd(bucket, k, ptr, end);
    assert bucket[..k] + [] == bucket[..k];
  }

  ghost predicate BucketIs(chain: seq<Tuple>, bucket: seq<Pair>)
    reads chain
  {
    && |chain| == |bucket|
    && forall i :: 0 <= i < |chain| ==>
         chain[i].next == At(chain, i + 1) && chain[i].name == bucket[i].name && chain[i].value == bucket[i].value
  }

  lemma OpenBucket(nv: Nvram, b: nat)
    requires nv.Valid() && b < BUCKETS
    ensures nv.hash.Length == BUCKETS == |nv.chains| && |nv.chains[b]| == |nv.table[b]|
    ensures nv.hash[b] == At(nv.chains[b], 0) && BucketIs(nv.chains[b], nv.table[b])
  {
    hide Hash, Bucket, ValidTable;
    ChainOpen(nv.hash[b], nv.chains[b], b);
    HoldsOpen(nv.chains[b], nv.table[b]);
  }

  lemma BucketStep(chain: seq<Tuple>, bucket: seq<Pair>, k: nat)
    requires BucketIs(chain, bucket) && k < |chain|
    ensures chain[k].next == At(chain, k + 1) && Pair(chain[k].name, chain[k].value) == bucket[k]
  {
  }

  lemma FittingStep(bucket: seq<Pair>, k: nat, ptr: nat, end: nat)
    requires k < |bucket|
    ensures var p := bucket[k];
            if ptr + |p.name| + 1 + |p.value| + 1 > end then Fitting(bucket[k..], ptr, end) == []
            else bucket[..k] + Fitting(bucket[k..], ptr, end)
                 == bucket[..k + 1] + Fitting(bucket[k + 1..], ptr + |p.name| + |p.value| + 2, end)
  {
    var p := bucket[k];
    assert bucket[k..][0] == p && bucket[k..][1..] == bucket[k + 1..];
    var rest := Fitting(bucket[k + 1..], ptr + |Entry(p)|, end);
    assert bucket[..k] + ([p] + rest) == bucket[..k + 1] + rest;
  }

  lemma FittingEnd(bucket: seq<Pair>, k: nat, ptr: nat, end: nat)
    requires k <= |bucket|
    ensures k == |bucket| ==> Fitting(bucket[k..], ptr, end) == []
  {
  }

  method AppendTuple(data: array<Octet>, ptr: nat, name: Text, value: Text, ghost pairs: seq<Pair>) returns (next: nat)
    requires Holding(data, ptr, pairs) && ptr + |name| + |value| + 2 <= data.Length
    modifies data
    ensures next == ptr + |name| + |value| + 2 && Holding(data, next, pairs + [Pair(name, value)])
  {
    hide Serialize, Entry;
    ghost var d := data[..];
    Appended(pairs, Pair(name, value));
    next := PutTuple(data, ptr, name, value);
    assert forall i :: next <= i < data.Length ==> data[i] == data[next..][i - next] && d[i] == d[next..][i - next];
  }

  lemma Appended(pairs: seq<Pair>, p: Pair)
    ensures Serialize(pairs + [p]) == Serialize(pairs) + Entry(p)
  {
    assert (pairs + [p])[..|pairs|] == pairs;
  }

  /** All buckets, in order; never into the last two bytes. */
  method WriteTuples(nv: Nvram, data: array<Octet>) returns (ptr: nat)
    requires nv.Valid() && data as object != nv.hash && data.Length >= 2 && forall i :: 0 <= i < data.Length ==> data[i] == 0
    modifies data
    ensures ptr <= data.Length - 2
    ensures Holding(data, ptr, Written(nv.table, BUCKETS, data.Length - 2))
  {
    hide Hash, Bucket, ValidTable, Serialize, Entry, Fitting, Holding, Chained, Holds;
    ptr := 0;
    var b := 0;
    Nothing(data);
    while b < BUCKETS
      invariant 0 <= b <= BUCKETS && ptr <= data.Length - 2
      invariant Holding(data, ptr, Written(nv.table, b, data.Length - 2))
    {
      HoldingEnd(data, ptr, Written(nv.table, b, data.Length - 2));
      ptr := WriteBucket(nv, b, data, ptr, Written(nv.table, b, data.Length - 2));
      b := b + 1;
    }
  }

  lemma HoldingEnd(data: array<Octet>, ptr: nat, pairs: seq<Pair>)
    requires Holding(data, ptr, pairs)
    ensures ptr == |Serialize(pairs)|
  {
  }

  lemma Nothing(data: array<Octet>)
    requires forall i :: 0 <= i < data.Length ==> data[i] == 0
    ensures Holding(data, 0, [])
  {
  }

  // ---------------------------------------------------------------- reloading

  const SDRAM_INIT: Text := [0x73, 0x64, 0x72, 0x61, 0x6D, 0x5F, 0x69, 0x6E, 0x69, 0x74]
  const SDRAM_CONFIG: Text := [0x73, 0x64, 0x72, 0x61, 0x6D, 0x5F, 0x63, 0x6F, 0x6E, 0x66, 0x69, 0x67]
  const SDRAM_REFRESH: Text := [0x73, 0x64, 0x72, 0x61, 0x6D, 0x5F, 0x72, 0x65, 0x66, 0x72, 0x65, 0x73, 0x68]
  const SDRAM_NCDL: Text := [0x73, 0x64, 0x72, 0x61, 0x6D, 0x5F, 0x6E, 0x63, 0x64, 0x6C]

  function Digit(d: bv32): (c: Octet)
    requires d < 16
    ensures c != 0
  {
    if d < 10 then 0x30 + (d as bv8) else 0x37 + (d as bv8)
  }

  /** printf "0x%04X" of sixteen bits. */
  function Hex4(v: bv32): Text {
    [0x30, 0x78, Digit((v >> 12) & 15), Digit((v >> 8) & 15), Digit((v >> 4) & 15), Digit(v & 15)]
  }

  /** printf "0x%08X". */
  function Hex8(v: bv32): Text {
    Hex4(v >> 16) + Hex4(v)[2..]
  }

  /** The SDRAM parameters that must exist, as the header has them. */
  function Defaults(crcVerInit: bv32, configRefresh: bv32, configNcdl: bv32): (d: seq<Pair>)
    ensures |d| == 4
  {
    [Pair(SDRAM_INIT, Hex4(Bits16to31(crcVerInit))), Pair(SDRAM_CONFIG, Hex4(HalfWord(configRefresh))),
     Pair(SDRAM_REFRESH, Hex4(Bits16to31(configRefresh))), Pair(SDRAM_NCDL, Hex8(configNcdl))]
  }

  method EnsureSet(nv: Nvram, name: Text, value: Text)
    requires nv.Valid()
    modifies nv, nv.hash, nv.live
    ensures nv.Valid() && fresh(nv.live - old(nv.live)) && (old(nv.NoLeak()) ==> nv.NoLeak())
    ensures nv.table == if Lookup(old(nv.table), name) == None then Set(old(nv.table), name, value) else old(nv.table)
  {
    hide Set, Lookup, Hash, Bucket;
    var t := nv.Get(Some(name));
    if t == null {
      var _ := nv.SetValue(name, value, true);
    }
  }

  /** strlen and strchr on the buffer. */
  method FindNul(data: array<Octet>, p: nat) returns (z: nat)
    requires Terminated(data[..]) && p < data.Length
    ensures z == Nul(data[..], p)
  {
    z := p;
    while data[z] != 0
      invariant p <= z < data.Length && Nul(data[..], p) == Nul(data[..], z)
      decreases data.Length - z
    {
      z := z + 1;
    }
  }

  method FindEquals(data: array<Octet>, p: nat) returns (e: nat)
    requires Terminated(data[..]) && p < data.Length
    ensures e == Equals(data[..], p)
  {
    e := p;
    while data[e] != 0 && data[e] != EQ
      invariant p <= e < data.Length && Equals(data[..], p) == Equals(data[..], e)
      decreases data.Length - e
    {
      e := e + 1;
    }
  }

  /** One round of the parse loop: cut the string at its '=', store it, put the '=' back. */
  method ParseOne(nv: Nvram, data: array<Octet>, p: nat) returns (found: bool, next: nat, ghost pair: Pair)
    requires nv.Valid() && data as object != nv.hash && Terminated(data[..]) && p < data.Length && data[p] != 0
    modifies nv, nv.hash, nv.live, data
    ensures nv.Valid() && fresh(nv.live - old(nv.live)) && (old(nv.NoLeak()) ==> nv.NoLeak()) && data[..] == old(data[..])
    ensures !found ==> nv.table == old(nv.table) && Parse(data[..], p) == []
    ensures found ==>
              && p < next < data.Length && nv.table == Set(old(nv.table), pair.name, pair.value)
              && Parse(data[..], p) == [pair] + Parse(data[..], next)
  {
    hide Set, Nvram.Valid, Parse, Nul, Equals;
    ghost var d := data[..];
    pair := Pair([], []);
    var e := FindEquals(data, p);
    if data[e] == 0 {
      ParseNone(d, p);
      return false, p, pair;
    }
    SameNul(d, e);
    data[e] := 0;
    ghost var cut := data[..];
    assert cut == d[e := 0];
    var z := FindNul(data, e + 1);
    ParseAt(d, p, e, z);
    var name, value := data[p..e], data[e + 1..z];
    assert name == d[p..e] && value == d[e + 1..z];
    var _ := nv.SetValue(name, value, true);
    assert data[..] == cut;
    data[e] := EQ;
    assert data[..] == d;
    found, next, pair := true, z + 1, Pair(name, value);
  }

  lemma ParseNone(d: seq<Octet>, p: nat)
    requires Terminated(d) && p < |d| && d[Equals(d, p)] == 0
    ensures Parse(d, p) == []
  {
  }

  lemma SameNul(d: seq<Octet>, e: nat)
    requires Terminated(d) && e + 2 < |d| && d[e] == EQ
    ensures Terminated(d[e := 0]) && Nul(d[e := 0], e + 1) == Nul(d, e + 1) < |d| - 1
  {
    var z := Nul(d, e + 1);
    var d' := d[e := 0];
    assert forall i :: e < i < |d| ==> d'[i] == d[i];
    assert d[|d| - 2] == 0;
  }

  /** nvram_rehash: start over from an image. The image comes out as it went in, but for
      the forced double NUL at its end. */
  method Rehash(nv: Nvram, header: Buffer)
    requires nv.Valid() && header.data as object != nv.hash && header.data.Length >= 2
    modifies nv, nv.hash, nv.live, header.data
    ensures nv.Valid() && fresh(nv.live - old(nv.live)) && (old(nv.NoLeak()) ==> nv.NoLeak())
    ensures header.data[..] == Ended(old(header.data[..]))
    ensures nv.table == WithDefaults(SetAll(Empty(), Parse(header.data[..], 0)), Defaults(header.crcVerInit, header.configRefresh, header.configNcdl))
  {
    hide Set, Nvram.Valid, SetAll, Parse, Lookup, Defaults, WithDefaults;
    nv.Free();
    var data, n := header.data, header.data.Length;
    data[n - 2] := 0;
    data[n - 1] := 0;
    ghost var d := data[..];
    assert d == Ended(old(header.data[..]));
    var p := 0;
    ghost var done: seq<Pair> := [];
    SetAllStart(Empty());
    assert [] + Parse(d, 0) == Parse(d, 0);
    while data[p] != 0
      invariant nv.Valid() && fresh(nv.live - old(nv.live)) && (old(nv.NoLeak()) ==> nv.NoLeak())
      invariant data[..] == d && p < n
      invariant nv.table == SetAll(Empty(), done)
      invariant Parse(d, 0) == done + Parse(d, p)
      decreases n - p
    {
      var found, next;
      ghost var pair;
      found, next, pair := ParseOne(nv, data, p);
      if !found {
        break;
      }
      SetAllNext(Empty(), done, pair);
      assert done + ([pair] + Parse(d, next)) == done + [pair] + Parse(d, next);
      done := done + [pair];
      p := next;
    }
    ParseStops(d, p);
    assert done + [] == done;
    AddDefaults(nv, Defaults(header.crcVerInit, header.configRefresh, header.configNcdl));
  }

  lemma SetAllStart(t: Table)
    ensures SetAll(t, []) == t
  {
  }

  lemma SetAllNext(t: Table, done: seq<Pair>, pair: Pair)
    ensures SetAll(t, done + [pair]) == Set(SetAll(t, done), pair.name, pair.value)
  {
    assert (done + [pair])[..|done|] == done;
  }

  lemma ParseStops(d: seq<Octet>, p: nat)
    requires Terminated(d) && p < |d|
    ensures d[p] == 0 ==> Parse(d, p) == []
  {
  }

  /** A data area with the double NUL forced at its end. */
  function Ended(d: seq<Octet>): (r: seq<Octet>)
    requires |d| >= 2
    ensures Terminated(r)
  {
    d[|d| - 2 := 0][|d| - 1 := 0]
  }

  method AddDefaults(nv: Nvram, d: seq<Pair>)
    requires nv.Valid() && |d| == 4
    modifies nv, nv.hash, nv.live
    ensures nv.Valid() && fresh(nv.live - old(nv.live)) && (old(nv.NoLeak()) ==> nv.NoLeak())
    ensures nv.table == WithDefaults(old(nv.table), d)
  {
    hide Set, Nvram.Valid, Lookup, WithDefaults;
    ghost var t := nv.table;
    DefaultsNext(t, d, 0);
    EnsureSet(nv, d[0].name, d[0].value);
    DefaultsNext(t, d, 1);
    EnsureSet(nv, d[1].name, d[1].value);
    DefaultsNext(t, d, 2);
    EnsureSet(nv, d[2].name, d[2].value);
    DefaultsNext(t, d, 3);
    EnsureSet(nv, d[3].name, d[3].value);
    assert d[..4] == d;
  }

  lemma DefaultsNext(t: Table, d: seq<Pair>, k: nat)
    requires k < |d|
    ensures WithDefaults(t, d[..k + 1])
            == var before := WithDefaults(t, d[..k]);
               if Lookup(before, d[k].name) == None then Set(before, d[k].name, d[k].value) else before
    ensures WithDefaults(t, d[..0]) == t
  {
    hide Set, Lookup;
    assert d[..k + 1][..k] == d[..k];
  }

  // ---------------------------------------------------------------- commit

  /** Constants of the board. */
  datatype Config = Config(magic: bv32, version: bv32, sdramInit: bv32, sdramConfig: bv32, sdramRefresh: bv32)

  datatype Words = Words(crcVerInit: bv32, configRefresh: bv32, configNcdl: bv32)

  function FirstWord(version: bv32, init: bv32): bv32 { (version << 8) | (init << 16) }

  function Halves(low: bv32, high: bv32): bv32 { low | (high << 16) }

  function Low16(x: bv32): bv32 { x & 0xFFFF }

  function WithCrc(w: bv32, crc: bv8): bv32 { w | (crc as bv32) }

  /** The header words of a table, with the checksum byte still clear: taken from the SDRAM
      parameters if all four are stored, from the board's constants otherwise. */
  function HeaderWords(t: Table, cfg: Config, strtoul: Text -> bv32): Words {
    var init, config := Lookup(t, SDRAM_INIT), Lookup(t, SDRAM_CONFIG);
    var refresh, ncdl := Lookup(t, SDRAM_REFRESH), Lookup(t, SDRAM_NCDL);
    if init == None || config == None || refresh == None || ncdl == None then
      Words(FirstWord(cfg.version, cfg.sdramInit), Halves(cfg.sdramConfig, cfg.sdramRefresh), 0)
    else
      Words(FirstWord(cfg.version, Low16(strtoul(init.value))),
            Halves(Low16(strtoul(config.value)), Low16(strtoul(refresh.value))),
            strtoul(ncdl.value))
  }

  function Bits16to31(w: bv32): bv32 { w >> (16 as bv6) }

  function Bits8to15(w: bv32): bv32 { (w >> (8 as bv6)) & 0xFF }

  /** The sixteen bits of a number that half a word has room for. */
  function HalfWord(x: bv32): bv32 { x & 0xFFFF }

  /** The header words bit by bit: the initialisation in the upper half of the first, the version
      below it; configuration and refresh in the lower and upper half of the second; the third. */
  predicate HeaderSays(w: Words, version: bv32, init: bv32, config: bv32, refresh: bv32, ncdl: bv32) {
    && Bits16to31(w.crcVerInit) == init && Bits8to15(w.crcVerInit) == version
    && HalfWord(w.configRefresh) == config && Bits16to31(w.configRefresh) == refresh
    && w.configNcdl == ncdl
  }

  /** What a board's constants may be: a byte for the version, half words for the others. */
  predicate FitsHeader(cfg: Config) {
    cfg.version <= 0xFF && cfg.sdramInit <= 0xFFFF && cfg.sdramConfig <= 0xFFFF && cfg.sdramRefresh <= 0xFFFF
  }

  /** What the header of a table must say: the numbers stored under the four names, cut to half
      words, or the board's if one of them is missing. */
  predicate HeaderRight(w: Words, t: Table, cfg: Config, strtoul: Text -> bv32) {
    var init, config := Lookup(t, SDRAM_INIT), Lookup(t, SDRAM_CONFIG);
    var refresh, ncdl := Lookup(t, SDRAM_REFRESH), Lookup(t, SDRAM_NCDL);
    if init.Some? && config.Some? && refresh.Some? && ncdl.Some? then
      HeaderSays(w, cfg.version, HalfWord(strtoul(init.value)), HalfWord(strtoul(config.value)),
                 HalfWord(strtoul(refresh.value)), strtoul(ncdl.value))
    else
      HeaderSays(w, cfg.version, cfg.sdramInit, cfg.sdramConfig, cfg.sdramRefresh, 0)
  }

  lemma WordsRight(t: Table, cfg: Config, strtoul: Text -> bv32)
    requires FitsHeader(cfg)
    ensures HeaderRight(HeaderWords(t, cfg, strtoul), t, cfg, strtoul)
  {
    hide Lookup, FirstWord, Halves, Low16, HeaderSays, HalfWord;
    var init, config := Lookup(t, SDRAM_INIT), Lookup(t, SDRAM_CONFIG);
    var refresh, ncdl := Lookup(t, SDRAM_REFRESH), Lookup(t, SDRAM_NCDL);
    if init.Some? && config.Some? && refresh.Some? && ncdl.Some? {
      WordsSay(cfg.version, strtoul(init.value), strtoul(config.value), strtoul(refresh.value), strtoul(ncdl.value));
    } else {
      WordsSay(cfg.version, cfg.sdramInit, cfg.sdramConfig, cfg.sdramRefresh, 0);
      Low16Of(cfg.sdramInit);
      Low16Of(cfg.sdramConfig);
      Low16Of(cfg.sdramRefresh);
    }
  }

  lemma Low16Of(x: bv32)
    requires x <= 0xFFFF
    ensures Low16(x) == x && HalfWord(x) == x
  {
  }

  lemma WordsSay(version: bv32, init: bv32, config: bv32, refresh: bv32, ncdl: bv32)
    requires version <= 0xFF
    ensures HeaderSays(Words(FirstWord(version, Low16(init)), Halves(Low16(config), Low16(refresh)), ncdl),
                       version, HalfWord(init), HalfWord(config), HalfWord(refresh), ncdl)
  {
    hide FirstWord, Halves, Low16, HalfWord, Bits16to31, Bits8to15;
    FirstSays(version, init);
    SecondSays(config, refresh);
  }

  lemma FirstSays(version: bv32, init: bv32)
    requires version <= 0xFF
    ensures Bits16to31(FirstWord(version, Low16(init))) == HalfWord(init) && Bits8to15(FirstWord(version, Low16(init))) == version
  {
  }

  lemma SecondSays(config: bv32, refresh: bv32)
    ensures HalfWord(Halves(Low16(config), Low16(refresh))) == HalfWord(config)
    ensures Bits16to31(Halves(Low16(config), Low16(refresh))) == HalfWord(refresh)
  {
  }

  /** The checksum byte is no part of that. */
  lemma SaysUnderMask(w: Words, w': Words, t: Table, cfg: Config, strtoul: Text -> bv32)
    requires HeaderRight(w, t, cfg, strtoul) && Masked(w'.crcVerInit) == Masked(w.crcVerInit)
    requires w'.configRefresh == w.configRefresh && w'.configNcdl == w.configNcdl
    ensures HeaderRight(w', t, cfg, strtoul)
  {
    hide Lookup, Masked, HeaderSays, HalfWord;
    var init, config := Lookup(t, SDRAM_INIT), Lookup(t, SDRAM_CONFIG);
    var refresh, ncdl := Lookup(t, SDRAM_REFRESH), Lookup(t, SDRAM_NCDL);
    if init.Some? && config.Some? && refresh.Some? && ncdl.Some? {
      StillSays(w, w', cfg.version, HalfWord(strtoul(init.value)), HalfWord(strtoul(config.value)),
                HalfWord(strtoul(refresh.value)), strtoul(ncdl.value));
    } else {
      StillSays(w, w', cfg.version, cfg.sdramInit, cfg.sdramConfig, cfg.sdramRefresh, 0);
    }
  }

  lemma StillSays(w: Words, w': Words, version: bv32, init: bv32, config: bv32, refresh: bv32, ncdl: bv32)
    requires HeaderSays(w, version, init, config, refresh, ncdl) && Masked(w'.crcVerInit) == Masked(w.crcVerInit)
    requires w'.configRefresh == w.configRefresh && w'.configNcdl == w.configNcdl
    ensures HeaderSays(w', version, init, config, refresh, ncdl)
  {
    hide Masked, Bits16to31, Bits8to15, HalfWord;
    MaskedShift(w.crcVerInit, w'.crcVerInit);
  }

  lemma MaskedShift(x: bv32, y: bv32)
    requires Masked(x) == Masked(y)
    ensures Bits16to31(x) == Bits16to31(y) && Bits8to15(x) == Bits8to15(y)
  {
  }

  method RegenerateHeader(nv: Nvram, header: Buffer, cfg: Config, strtoul: Text -> bv32)
    requires nv.Valid()
    modifies header`magic, header`crcVerInit, header`configRefresh, header`configNcdl
    ensures header.magic == cfg.magic
    ensures Words(header.crcVerInit, header.configRefresh, header.configNcdl) == HeaderWords(nv.table, cfg, strtoul)
  {
    hide Nvram.Valid, Lookup, FirstWord, Halves, Low16;
    header.magic := cfg.magic;
    var init := nv.Get(Some(SDRAM_INIT));
    var config := nv.Get(Some(SDRAM_CONFIG));
    var refresh := nv.Get(Some(SDRAM_REFRESH));
    var ncdl := nv.Get(Some(SDRAM_NCDL));
    if init == null || config == null || refresh == null || ncdl == null {
      header.crcVerInit := FirstWord(cfg.version, cfg.sdramInit);
      header.configRefresh := Halves(cfg.sdramConfig, cfg.sdramRefresh);
      header.configNcdl := 0;
    } else {
      header.crcVerInit := FirstWord(cfg.version, Low16(strtoul(init.value)));
      header.configRefresh := Halves(Low16(strtoul(config.value)), Low16(strtoul(refresh.value)));
      header.configNcdl := strtoul(ncdl.value);
    }
  }

  /** Adding the checksum to a first word whose low byte is clear stores it, and does not
      change what it covers. */
  lemma ChecksumFits(version: bv32, init: bv32, crc: bv8)
    ensures var w := FirstWord(version, init);
            CrcByte(WithCrc(w, crc)) == crc && Masked(WithCrc(w, crc)) == Masked(w)
  {
  }

  ghost predicate IsFirstWord(w: bv32) {
    exists version, init :: w == FirstWord(version, init)
  }

  /** Stores the checksum; the image passes the test from now on. */
  method Seal(header: Buffer)
    requires HEADER_SIZE <= header.len <= HEADER_SIZE + header.data.Length && IsFirstWord(header.crcVerInit)
    modifies header`crcVerInit
    ensures Passes(header.Value())
    ensures Masked(header.crcVerInit) == Masked(old(header.crcVerInit))
  {
    hide Crc.Checksum8, Octets, FirstWord, WithCrc, Masked, CrcByte;
    var crc := CalcCrc(header);
    ghost var before := header.Value();
    ghost var version, init :| header.crcVerInit == FirstWord(version, init);
    ChecksumFits(version, init, crc);
    header.crcVerInit := WithCrc(header.crcVerInit, crc);
    assert Covered(header.Value()) == Covered(before);
  }

  /** memset */
  method Clear(data: array<Octet>)
    modifies data
    ensures forall i :: 0 <= i < data.Length ==> data[i] == 0
  {
    var i := 0;
    while i < data.Length
      invariant 0 <= i <= data.Length
      invariant forall k :: 0 <= k < i ==> data[k] == 0
    {
      data[i] := 0;
      i := i + 1;
    }
  }

  /** An image holding the tuples `pairs`, closed by at least two NULs within its length. */
  ghost predicate Carries(b: Blob, pairs: seq<Pair>) {
    var n := |Serialize(pairs)|;
    && n + 2 <= |b.data| && b.data[..n] == Serialize(pairs) && b.data[n] == 0 && b.data[n + 1] == 0
    && HEADER_SIZE + n + 2 <= b.len <= HEADER_SIZE + |b.data| && b.len % 4 == 0
  }

  lemma HeaderStays(t: Table, cfg: Config, strtoul: Text -> bv32, w: Words)
    requires var w0 := HeaderWords(t, cfg, strtoul);
             Masked(w.crcVerInit) == Masked(w0.crcVerInit) && w.configRefresh == w0.configRefresh && w.configNcdl == w0.configNcdl
    ensures FitsHeader(cfg) ==> HeaderRight(w, t, cfg, strtoul)
  {
    hide HeaderWords, HeaderRight, Masked;
    if FitsHeader(cfg) {
      WordsRight(t, cfg, strtoul);
      SaysUnderMask(HeaderWords(t, cfg, strtoul), w, t, cfg, strtoul);
    }
  }

  /** ROUNDUP to whole words. */
  function Round4(n: nat): nat { (n + 3) / 4 * 4 }

  lemma Round4Is(n: nat, limit: nat)
    requires n <= limit && limit % 4 == 0
    ensures n <= Round4(n) < n + 4 && Round4(n) % 4 == 0 && Round4(n) <= limit
  {
  }

  /** The image part of _nvram_commit. */
  method WriteImage(nv: Nvram, header: Buffer, cfg: Config, strtoul: Text -> bv32)
    requires nv.Valid() && header.data as object != nv.hash
    requires header.data.Length >= 2 && (HEADER_SIZE + header.data.Length) % 4 == 0
    modifies header, header.data
    ensures header.magic == cfg.magic && Passes(header.Value())
    ensures Carries(header.Value(), Written(nv.table, BUCKETS, header.data.Length - 2))
    ensures Ended(header.data[..]) == header.data[..]
    ensures var end := HEADER_SIZE + |Serialize(Written(nv.table, BUCKETS, header.data.Length - 2))| + 2;
            end <= header.len < end + 4 && header.len % 4 == 0
    ensures var w := HeaderWords(nv.table, cfg, strtoul);
            && Masked(header.crcVerInit) == Masked(w.crcVerInit)
            && header.configRefresh == w.configRefresh && header.configNcdl == w.configNcdl
    ensures FitsHeader(cfg) ==>
              HeaderRight(Words(header.crcVerInit, header.configRefresh, header.configNcdl), nv.table, cfg, strtoul)
  {
    hide Nvram.Valid, Lookup, Written, Passes, FirstWord, Halves, Low16, Masked, Serialize, HeaderRight, Round4;
    RegenerateHeader(nv, header, cfg, strtoul);
    assert IsFirstWord(header.crcVerInit);
    Clear(header.data);
    var ptr := WriteTuples(nv, header.data);
    ptr := ptr + 2;
    Round4Is(HEADER_SIZE + ptr, HEADER_SIZE + header.data.Length);
    header.len := Round4(HEADER_SIZE + ptr);
    Seal(header);
    HeaderStays(nv.table, cfg, strtoul, Words(header.crcVerInit, header.configRefresh, header.configNcdl));
    assert header.data[..][..ptr - 2] == header.data[..ptr - 2];
  }

  /** Parsing an image gives back its tuples, whatever lies beyond the closing NULs. */
  lemma ParseCarried(b: Blob, pairs: seq<Pair>)
    requires Carries(b, pairs) && Terminated(b.data)
    ensures Parse(b.data, 0) == RereadAll(pairs)
  {
    hide Serialize;
    assert b.data[0..0 + |Serialize(pairs)|] == b.data[..|Serialize(pairs)|];
    ParseSerialized(b.data, 0, pairs);
  }

  /** _nvram_commit: the image passes its own test even after the in-place parse, and the
      store is what reading that image back gives. */
  method Commit(nv: Nvram, header: Buffer, cfg: Config, strtoul: Text -> bv32)
    requires nv.Valid() && header.data as object != nv.hash
    requires header.data.Length >= 2 && (HEADER_SIZE + header.data.Length) % 4 == 0
    modifies nv, nv.hash, nv.live, header, header.data
    ensures nv.Valid() && fresh(nv.live - old(nv.live)) && (old(nv.NoLeak()) ==> nv.NoLeak())
    ensures header.magic == cfg.magic && Passes(header.Value())
    ensures Carries(header.Value(), Written(old(nv.table), BUCKETS, header.data.Length - 2))
    ensures header.len < 20 + |Serialize(Written(old(nv.table), BUCKETS, header.data.Length - 2))| + 6
    ensures nv.table == WithDefaults(Reloaded(old(nv.table), header.data.Length - 2),
                                     Defaults(header.crcVerInit, header.configRefresh, header.configNcdl))
    ensures var w := HeaderWords(old(nv.table), cfg, strtoul);
            && Masked(header.crcVerInit) == Masked(w.crcVerInit)
            && header.configRefresh == w.configRefresh && header.configNcdl == w.configNcdl
    ensures FitsHeader(cfg) ==>
              HeaderRight(Words(header.crcVerInit, header.configRefresh, header.configNcdl), old(nv.table), cfg, strtoul)
  {
    hide Nvram.Valid, HeaderWords, HeaderRight, Written, Passes, Carries, Masked, Serialize, Ended, Defaults, WithDefaults, Parse, SetAll, RereadAll;
    WriteImage(nv, header, cfg, strtoul);
    ghost var image := header.Value();
    ParseCarried(image, Written(nv.table, BUCKETS, header.data.Length - 2));
    Rehash(nv, header);
    assert header.Value() == image;
  }

  /** The test in find_nvram on an image that claims a possible length. */
  method CrcGood(nvh: Buffer) returns (ok: bool)
    requires HEADER_SIZE <= nvh.len <= HEADER_SIZE + nvh.data.Length
    ensures ok == Passes(nvh.Value())
  {
    var crc := CalcCrc(nvh);
    ok := crc == CrcByte(nvh.crcVerInit);
  }

  /** _nvram_read: the header, then the data by words up to the image's length; the rest of
      the buffer keeps whatever it held. */
  method Read(flash: Buffer, buf: Buffer)
    requires flash.data != buf.data && flash != buf && flash.data.Length == buf.data.Length && flash.data.Length % 4 == 0
    modifies buf, buf.data
    ensures buf.magic == flash.magic && buf.len == flash.len && buf.crcVerInit == flash.crcVerInit
    ensures buf.configRefresh == flash.configRefresh && buf.configNcdl == flash.configNcdl
    ensures forall i :: 0 <= i < flash.data.Length && HEADER_SIZE + i < flash.len ==> buf.data[i] == flash.data[i]
  {
    buf.magic, buf.len, buf.crcVerInit := flash.magic, flash.len, flash.crcVerInit;
    buf.configRefresh, buf.configNcdl := flash.configRefresh, flash.configNcdl;
    var i, size := HEADER_SIZE, HEADER_SIZE + flash.data.Length;
    while i < flash.len && i < size
      modifies buf.data
      invariant HEADER_SIZE <= i <= size && i % 4 == 0
      invariant forall k :: 0 <= k < i - HEADER_SIZE ==> buf.data[k] == flash.data[k]
    {
      var j := i - HEADER_SIZE;
      buf.data[j], buf.data[j + 1] := flash.data[j], flash.data[j + 1];
      buf.data[j + 2], buf.data[j + 3] := flash.data[j + 2], flash.data[j + 3];
      i := i + 4;
    }
  }

  /** _nvram_init: from a committed image in flash, through a buffer of arbitrary contents.
      Without memory, without an image or with a foreign one, the store stays as it is. */
  method Init(nv: Nvram, flash: Buffer, found: bool, mallocOk: bool, buf: Buffer, cfg: Config, ghost pairs: seq<Pair>) returns (ret: int)
    requires nv.Valid() && buf.data as object != nv.hash && flash.data as object != nv.hash
    requires flash.data != buf.data && flash != buf && 2 <= flash.data.Length == buf.data.Length && flash.data.Length % 4 == 0
    modifies nv, nv.hash, nv.live, buf, buf.data
    ensures nv.Valid() && fresh(nv.live - old(nv.live)) && (old(nv.NoLeak()) ==> nv.NoLeak())
    ensures ret == if !mallocOk then -ENOMEM else if !found then -1 else 0
    ensures ret != 0 || flash.magic != cfg.magic ==> nv.table == old(nv.table)
    ensures ret == 0 && flash.magic == cfg.magic && Carries(flash.Value(), pairs) ==>
              nv.table == WithDefaults(SetAll(Empty(), RereadAll(pairs)),
                                       Defaults(flash.crcVerInit, flash.configRefresh, flash.configNcdl))
  {
    hide Nvram.Valid, Serialize, Defaults, WithDefaults, Parse, SetAll, RereadAll;
    if !mallocOk {
      return -ENOMEM;
    }
    if !found {
      return -1;
    }
    Read(flash, buf);
    if buf.magic == cfg.magic {
      ghost var garbled, image := buf.data[..], flash.Value();
      assert forall i :: 0 <= i < |garbled| && HEADER_SIZE + i < flash.len ==> garbled[i] == image.data[i];
      if Carries(image, pairs) {
        EndedCarries(image, garbled, pairs);
      }
      Rehash(nv, buf);
      assert flash.data[..] == image.data;
      assert flash.Value() == image;
    }
    ret := 0;
  }

  /** A copy that agrees up to the closing NULs carries the same tuples once it is ended. */
  lemma EndedCarries(image: Blob, copy: seq<Octet>, pairs: seq<Pair>)
    requires Carries(image, pairs) && |copy| == |image.data|
    requires forall i :: 0 <= i < |Serialize(pairs)| + 2 ==> copy[i] == image.data[i]
    ensures Parse(Ended(copy), 0) == RereadAll(pairs)
  {
    hide Serialize, Parse, RereadAll;
    var n := |Serialize(pairs)|;
    assert forall i :: 0 <= i < n + 2 ==> Ended(copy)[i] == image.data[i];
    assert Ended(copy)[..n] == image.data[..n];
    ParseCarried(image.(data := Ended(copy)), pairs);
  }
}
