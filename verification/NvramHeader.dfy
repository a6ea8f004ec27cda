/** What the header of an image and the four SDRAM parameters say as numbers. */
module NvramHeader {
  import opened Bytes
  import opened NvramTable
  import opened NvramImage
  import opened NvramRoundTrip
  import opened NvramStore

  // ---------------------------------------------------------------- hexadecimal text

  /** The value of an upper-case hexadecimal digit. */
  function DigitValue(c: Octet): bv32 {
    if 0x30 <= c <= 0x39 then (c - 0x30) as bv32
    else if 0x41 <= c <= 0x46 then (c - 0x37) as bv32
    else 0x10
  }

  function Times16(x: bv32): bv32 { x << (4 as bv6) }

  function Or(x: bv32, y: bv32): bv32 { x | y }

  /** The number that hexadecimal digits stand for. */
  function Number(s: seq<Octet>): bv32 {
    if s == [] then 0 else Or(Times16(Number(s[..|s| - 1])), DigitValue(s[|s| - 1]))
  }

  /** A text that begins with 0x and has `n` digits. */
  predicate IsHex(s: Text, n: nat) {
    |s| == n + 2 && s[0] == 0x30 && s[1] == 0x78 && forall i :: 2 <= i < |s| ==> DigitValue(s[i]) < 0x10
  }

  lemma DigitReads(d: bv32)
    requires d < 16
    ensures DigitValue(Digit(d)) == d
  {
  }

  function Nibble(v: bv32, k: nat): (d: bv32)
    requires k < 4
    ensures d < 16
  {
    if k == 0 then v & 15 else if k == 1 then (v >> (4 as bv6)) & 15 else if k == 2 then (v >> (8 as bv6)) & 15 else (v >> (12 as bv6)) & 15
  }

  lemma NumberSnoc(s: seq<Octet>, c: Octet)
    ensures Number(s + [c]) == Or(Times16(Number(s)), DigitValue(c))
  {
    hide Or, Times16, DigitValue;
    assert (s + [c])[..|s|] == s;
  }

  lemma Hex4Is(v: bv32)
    ensures Hex4(v) == [0x30, 0x78, Digit(Nibble(v, 3)), Digit(Nibble(v, 2)), Digit(Nibble(v, 1)), Digit(Nibble(v, 0))]
  {
  }

  /** Four digits appended to a number. */
  lemma FourDigits(s: seq<Octet>, v: bv32)
    ensures Number(s + Hex4(v)[2..]) == Append(Number(s), v)
    ensures IsHex(Hex4(v), 4)
  {
    hide Or, Times16, DigitValue, Digit, Nibble, Append, Number, Hex4;
    Hex4Is(v);
    var a, b, c, d := Digit(Nibble(v, 3)), Digit(Nibble(v, 2)), Digit(Nibble(v, 1)), Digit(Nibble(v, 0));
    DigitReads(Nibble(v, 3));
    DigitReads(Nibble(v, 2));
    DigitReads(Nibble(v, 1));
    DigitReads(Nibble(v, 0));
    NumberSnoc(s, a);
    NumberSnoc(s + [a], b);
    NumberSnoc(s + [a] + [b], c);
    NumberSnoc(s + [a] + [b] + [c], d);
    assert s + Hex4(v)[2..] == s + [a] + [b] + [c] + [d];
    Nibbles(Number(s), v);
    assert forall i :: 2 <= i < 6 ==> Hex4(v)[i] == [a, b, c, d][i - 2];
  }

  /** A number with sixteen bits of another behind it. */
  function Append(x: bv32, v: bv32): bv32 { (x << (16 as bv6)) | (v & 0xFFFF) }

  lemma Nibbles(x: bv32, v: bv32)
    ensures Or(Times16(Or(Times16(Or(Times16(Or(Times16(x), Nibble(v, 3))), Nibble(v, 2))), Nibble(v, 1))), Nibble(v, 0)) == Append(x, v)
  {
  }

  /** What is printed with %04X reads back as its sixteen bits, and with %08X as the whole word. */
  lemma HexReads(v: bv32)
    ensures IsHex(Hex4(v), 4) && Number(Hex4(v)[2..]) == HalfWord(v)
    ensures IsHex(Hex8(v), 8) && Number(Hex8(v)[2..]) == v
  {
    hide Number, Append, Hex4, HalfWord, DigitValue;
    FourDigits([], v);
    var high := v >> 16;
    FourDigits([], high);
    FourDigits(Hex4(high)[2..], v);
    NoDigits();
    assert [] + Hex4(v)[2..] == Hex4(v)[2..] && [] + Hex4(high)[2..] == Hex4(high)[2..];
    assert Hex8(v)[2..] == Hex4(high)[2..] + Hex4(v)[2..];
    Halved(v);
    assert forall i :: 2 <= i < 10 ==> Hex8(v)[i] == if i < 6 then Hex4(high)[i] else Hex4(v)[i - 4];
  }

  lemma NoDigits()
    ensures Number([]) == 0
  {
  }

  lemma Halved(v: bv32)
    ensures Append(0, v) == HalfWord(v) && Append(Append(0, v >> 16), v) == v
  {
  }

  // ---------------------------------------------------------------- after a commit

  /** The names, letter by letter: sdram_ followed by init, config, refresh and ncdl. */
  const PREFIX: seq<Octet> := [0x73, 0x64, 0x72, 0x61, 0x6D, 0x5F]

  lemma NamesAre()
    ensures SDRAM_INIT == PREFIX + [0x69, 0x6E, 0x69, 0x74]
    ensures SDRAM_CONFIG == PREFIX + [0x63, 0x6F, 0x6E, 0x66, 0x69, 0x67]
    ensures SDRAM_REFRESH == PREFIX + [0x72, 0x65, 0x66, 0x72, 0x65, 0x73, 0x68]
    ensures SDRAM_NCDL == PREFIX + [0x6E, 0x63, 0x64, 0x6C]
  {
  }

  /** The text under a name is 0x and `digits` digits that stand for `v`. */
  predicate Says(t: Table, name: Text, digits: nat, v: bv32) {
    Lookup(t, name).Some? && IsHex(Lookup(t, name).value, digits) && Number(Lookup(t, name).value[2..]) == v
  }

  lemma DefaultTexts(w: Words)
    ensures var d := Defaults(w.crcVerInit, w.configRefresh, w.configNcdl);
            && First(d, SDRAM_INIT) == Some(Hex4(Bits16to31(w.crcVerInit))) && First(d, SDRAM_CONFIG) == Some(Hex4(HalfWord(w.configRefresh)))
            && First(d, SDRAM_REFRESH) == Some(Hex4(Bits16to31(w.configRefresh))) && First(d, SDRAM_NCDL) == Some(Hex8(w.configNcdl))
  {
    hide Hex4, Hex8;
    var d := Defaults(w.crcVerInit, w.configRefresh, w.configNcdl);
    var a, b, c, e := d[0], d[1], d[2], d[3];
    assert d[..3] == [a, b, c] && [a, b, c][..2] == [a, b] && [a, b][..1] == [a] && [a][..0] == [];
    assert |SDRAM_INIT| == 10 && |SDRAM_CONFIG| == 12 && |SDRAM_REFRESH| == 13 && SDRAM_INIT[6] != SDRAM_NCDL[6];
    FirstOf1(a, SDRAM_INIT);
    FirstOf1(a, SDRAM_CONFIG);
    FirstOf1(a, SDRAM_REFRESH);
    FirstOf1(a, SDRAM_NCDL);
    FirstNext([a], b, SDRAM_INIT);
    FirstNext([a], b, SDRAM_CONFIG);
    FirstNext([a], b, SDRAM_REFRESH);
    FirstNext([a], b, SDRAM_NCDL);
    FirstNext([a, b], c, SDRAM_INIT);
    FirstNext([a, b], c, SDRAM_CONFIG);
    FirstNext([a, b], c, SDRAM_REFRESH);
    FirstNext([a, b], c, SDRAM_NCDL);
    FirstNext([a, b, c], e, SDRAM_INIT);
    FirstNext([a, b, c], e, SDRAM_CONFIG);
    FirstNext([a, b, c], e, SDRAM_REFRESH);
    FirstNext([a, b, c], e, SDRAM_NCDL);
    assert [a] + [b] == [a, b] && [a, b] + [c] == [a, b, c] && [a, b, c] + [e] == d;
  }

  lemma FirstOf1(p: Pair, name: Text)
    ensures First([p], name) == if p.name == name then Some(p.value) else None
  {
    assert [p][..0] == [];
  }

  lemma FirstNext(d: seq<Pair>, p: Pair, name: Text)
    ensures First(d + [p], name) == if First(d, name).Some? then First(d, name) else if p.name == name then Some(p.value) else None
  {
    assert (d + [p])[..|d|] == d;
  }

  lemma HeaderText(w: Words, version: bv32, init: bv32, config: bv32, refresh: bv32, ncdl: bv32)
    requires HeaderSays(w, version, init, config, refresh, ncdl) && init <= 0xFFFF && config <= 0xFFFF && refresh <= 0xFFFF
    ensures IsHex(Hex4(Bits16to31(w.crcVerInit)), 4) && Number(Hex4(Bits16to31(w.crcVerInit))[2..]) == init
    ensures IsHex(Hex4(HalfWord(w.configRefresh)), 4) && Number(Hex4(HalfWord(w.configRefresh))[2..]) == config
    ensures IsHex(Hex4(Bits16to31(w.configRefresh)), 4) && Number(Hex4(Bits16to31(w.configRefresh))[2..]) == refresh
    ensures IsHex(Hex8(w.configNcdl), 8) && Number(Hex8(w.configNcdl)[2..]) == ncdl
  {
    hide Hex4, Hex8, Number, IsHex, HalfWord, Bits16to31, Bits8to15;
    HexReads(Bits16to31(w.crcVerInit));
    HexReads(HalfWord(w.configRefresh));
    HexReads(Bits16to31(w.configRefresh));
    HexReads(w.configNcdl);
    Shifted(w.crcVerInit);
    Shifted(w.configRefresh);
  }

  lemma Shifted(x: bv32)
    ensures HalfWord(Bits16to31(x)) == Bits16to31(x) && HalfWord(HalfWord(x)) == HalfWord(x)
  {
  }

  /** A store without the four parameters has them after a commit, each as a text that reads back
      as the board's number. */
  lemma BoardParameters(t: Table, room: nat, cfg: Config, strtoul: Text -> bv32, w: Words)
    requires ValidTable(t) && Clean(t) && FitsHeader(cfg) && HeaderRight(w, t, cfg, strtoul)
    requires Lookup(t, SDRAM_INIT) == Lookup(t, SDRAM_CONFIG) == Lookup(t, SDRAM_REFRESH) == Lookup(t, SDRAM_NCDL) == None
    ensures var after := WithDefaults(Reloaded(t, room), Defaults(w.crcVerInit, w.configRefresh, w.configNcdl));
            && Says(after, SDRAM_INIT, 4, cfg.sdramInit) && Says(after, SDRAM_CONFIG, 4, cfg.sdramConfig)
            && Says(after, SDRAM_REFRESH, 4, cfg.sdramRefresh) && Says(after, SDRAM_NCDL, 8, 0)
  {
    hide Lookup, Reloaded, WithDefaults, Defaults, Hex4, Hex8, Number, IsHex, HeaderSays, First, ValidTable, Clean;
    var d := Defaults(w.crcVerInit, w.configRefresh, w.configNcdl);
    HeaderText(w, cfg.version, cfg.sdramInit, cfg.sdramConfig, cfg.sdramRefresh, 0);
    DefaultTexts(w);
    MissingGetsDefault(t, room, d, SDRAM_INIT);
    MissingGetsDefault(t, room, d, SDRAM_CONFIG);
    MissingGetsDefault(t, room, d, SDRAM_REFRESH);
    MissingGetsDefault(t, room, d, SDRAM_NCDL);
  }

  lemma MissingGetsDefault(t: Table, room: nat, d: seq<Pair>, name: Text)
    requires ValidTable(t) && Clean(t) && Lookup(t, name) == None
    ensures Lookup(WithDefaults(Reloaded(t, room), d), name) == First(d, name)
  {
    hide Lookup, Reloaded, WithDefaults, First;
    ReloadedIsSubset(t, room, name);
    ReloadedLookup(t, room, name);
    DefaultsLookup(Reloaded(t, room), d, name);
  }

  // ---------------------------------------------------------------- what the checksum covers

  /** The number that four bytes stand for, lowest first. */
  function Word(a: Octet, b: Octet, c: Octet, d: Octet): bv32 {
    (a as bv32) | ((b as bv32) << (8 as bv6)) | ((c as bv32) << (16 as bv6)) | ((d as bv32) << (24 as bv6))
  }

  /** The checksum covers eleven header bytes, which are the upper three of the first word and all of
      the other two, lowest byte first, and then the data up to the length. */
  lemma CoveredIs(b: Blob)
    requires 20 <= b.len <= 20 + |b.data|
    ensures var c := Covered(b);
            && |c| == 11 + (b.len - 20) && Word(0, c[0], c[1], c[2]) == b.crcVerInit & 0xFFFF_FF00
            && Word(c[3], c[4], c[5], c[6]) == b.configRefresh && Word(c[7], c[8], c[9], c[10]) == b.configNcdl
            && c[11..] == b.data[..b.len - 20]
  {
    hide Octets, Word, Masked;
    OctetsWord(Masked(b.crcVerInit));
    OctetsWord(b.configRefresh);
    OctetsWord(b.configNcdl);
    FirstCleared(b.crcVerInit);
    var h := HeaderBytes(b.crcVerInit, b.configRefresh, b.configNcdl);
    var x, y, z := Octets(Masked(b.crcVerInit)), Octets(b.configRefresh), Octets(b.configNcdl);
    assert h == [x[1], x[2], x[3], y[0], y[1], y[2], y[3], z[0], z[1], z[2], z[3]];
    assert Covered(b)[11..] == b.data[..b.len - 20];
  }

  /** An image passes exactly if its length fits and the lowest byte of its first word is the CRC-8 of all
      that, started from 0xFF. */
  lemma PassesIff(b: Blob)
    ensures Passes(b) <==> 20 <= b.len <= 20 + |b.data| && (b.crcVerInit & 0xFF) as bv8 == Crc.Checksum8(0xFF, Covered(b))
  {
  }

  lemma OctetsWord(w: bv32)
    ensures var o := Octets(w); |o| == 4 && Word(o[0], o[1], o[2], o[3]) == w
  {
  }

  lemma FirstCleared(w: bv32)
    ensures |Octets(Masked(w))| == 4 && Octets(Masked(w))[0] == 0 && Masked(w) == w & 0xFFFF_FF00
  {
  }
}
