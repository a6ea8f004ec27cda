/** S-records as values: the hexadecimal text, one line, and the reading of a line. */
module SRecord {
  import opened Arith
  import opened Bytes

  const LINE_FEED: Byte := 10
  const RETURN: Byte := 13
  const BREAK: Byte := 3
  const LETTER_S: Byte := 0x53
  const DIGIT_0: Byte := 0x30

  const E_BADTYPE: int := -1
  const E_NOSREC: int := -2
  const E_BADCHKS: int := -3

  const START: int := 0
  const DATA4: int := 3
  const COUNT: int := 5
  const END4: int := 7

  // ---------------------------------------------------------------- hexadecimal

  function Digit(d: nat): Byte
    requires d < 16
  {
    if d < 10 then DIGIT_0 + d else 0x41 + d - 10
  }

  /** hex1_bin */
  function Hex1(c: Byte): (v: int)
    ensures -1 <= v < 16
  {
    if 0x30 <= c <= 0x39 then c - 0x30
    else if 0x61 <= c <= 0x66 then c as int + 10 - 0x61
    else if 0x41 <= c <= 0x46 then c as int + 10 - 0x41
    else -1
  }

  function High(b: Byte): (d: nat)
    ensures d < 16
  {
    b / 16
  }

  function Low(b: Byte): (d: nat)
    ensures d < 16
  {
    b % 16
  }

  function Pair(b: Byte): (s: seq<Byte>)
    ensures |s| == 2
  {
    [Digit(High(b)), Digit(Low(b))]
  }

  /** hex2_bin, on a string that ends with the sequence. */
  function Hex2(s: seq<Byte>): (v: int)
    ensures -1 <= v < 256
    ensures v >= 0 ==> |s| >= 2
  {
    if |s| < 2 || Hex1(s[0]) < 0 || Hex1(s[1]) < 0 then -1 else Hex1(s[0]) * 16 + Hex1(s[1])
  }

  lemma DigitReads(d: nat)
    requires d < 16
    ensures Hex1(Digit(d)) == d && Digit(d) >= 0x30
  {
  }

  lemma PairReads(b: Byte, rest: seq<Byte>)
    ensures Hex2(Pair(b) + rest) == b
  {
    hide Digit, Hex1;
    DigitReads(High(b));
    DigitReads(Low(b));
    var s := Pair(b) + rest;
    assert s[0] == Digit(High(b)) && s[1] == Digit(Low(b));
    DivMod(b, 16);
  }

  function HexAll(bs: seq<Byte>): (s: seq<Byte>)
    ensures |s| == 2 * |bs|
  {
    if bs == [] then [] else Pair(bs[0]) + HexAll(bs[1..])
  }

  /** The first `n` pairs of a text. */
  function Pairs(s: seq<Byte>, n: nat): (r: Option<seq<Byte>>)
    ensures r.Some? ==> |r.value| == n && |s| >= 2 * n
  {
    if n == 0 then Some([])
    else if Hex2(s) < 0 then None
    else match Pairs(s[2..], n - 1)
         case None => None
         case Some(bs) => Some([Hex2(s) as Byte] + bs)
  }

  lemma {:induction false} PairsOfHex(bs: seq<Byte>, rest: seq<Byte>)
    ensures Pairs(HexAll(bs) + rest, |bs|) == Some(bs)
  {
    hide Hex2, Pair;
    if bs != [] {
      var s, more := HexAll(bs) + rest, HexAll(bs[1..]) + rest;
      assert s == Pair(bs[0]) + more;
      PairReads(bs[0], more);
      assert s[2..] == more;
      PairsOfHex(bs[1..], rest);
      assert Pairs(s, |bs|) == Some([bs[0]] + bs[1..]);
      assert [bs[0]] + bs[1..] == bs;
    }
  }

  lemma {:induction false} HexConcat(a: seq<Byte>, b: seq<Byte>)
    ensures HexAll(a + b) == HexAll(a) + HexAll(b)
  {
    hide Pair;
    if a == [] {
      assert a + b == b;
    } else {
      assert (a + b)[1..] == a[1..] + b;
      HexConcat(a[1..], b);
    }
  }

  /** Pairs are read one after the other. */
  lemma {:induction false} PairsSplit(s: seq<Byte>, n: nat, m: nat)
    ensures Pairs(s, n).None? ==> Pairs(s, n + m).None?
    ensures Pairs(s, n).Some? ==>
              var more := Pairs(s[2 * n..], m);
              Pairs(s, n + m) == if more.None? then None else Some(Pairs(s, n).value + more.value)
  {
    hide Hex2;
    if n == 0 {
      assert s[0..] == s;
      if Pairs(s, m).Some? { assert [] + Pairs(s, m).value == Pairs(s, m).value; }
    } else if Hex2(s) >= 0 {
      PairsSplit(s[2..], n - 1, m);
      if Pairs(s[2..], n - 1).Some? {
        assert s[2..][2 * (n - 1)..] == s[2 * n..];
        var more := Pairs(s[2 * n..], m);
        if more.Some? {
          var a, b, c := [Hex2(s) as Byte], Pairs(s[2..], n - 1).value, more.value;
          assert a + (b + c) == a + b + c;
        }
      }
    }
  }

  // ---------------------------------------------------------------- checksums and addresses

  function Sum(bs: seq<Byte>): (t: nat) {
    if bs == [] then 0 else bs[0] as int + Sum(bs[1..])
  }

  lemma {:induction false} SumConcat(a: seq<Byte>, b: seq<Byte>)
    ensures Sum(a + b) == Sum(a) + Sum(b)
  {
    if a == [] {
      assert a + b == b;
    } else {
      assert (a + b)[1..] == a[1..] + b;
      SumConcat(a[1..], b);
    }
  }

  /** The complement of the low byte of a sum. */
  function Complement(t: nat): Byte { 255 - Low8(t) }

  /** An unsigned char. */
  function Low8(t: int): Byte { t % 256 }

  /** A checksum byte closes its record exactly when the whole sums to 255. */
  lemma ComplementIff(t: nat, c: Byte)
    ensures c == Complement(t) <==> Low8(t + c) == 255
  {
    DivMod(t, 256);
    var q, r := t / 256, t % 256;
    if r + c < 256 {
      DivModIs(t + c, 256, q, r + c);
    } else {
      DivModIs(t + c, 256, q + 1, r + c - 256);
    }
  }

  function BigEndian(bs: seq<Byte>): (a: nat) {
    if bs == [] then 0 else BigEndian(bs[..|bs| - 1]) * 256 + bs[|bs| - 1]
  }

  type Word = a: int | 0 <= a < 0x1_0000_0000

  function ByteOf(a: Word, i: nat): Byte
    requires i < 4
  {
    if i == 0 then a % 256
    else if i == 1 then a / 0x100 % 256
    else if i == 2 then a / 0x1_0000 % 256
    else a / 0x100_0000
  }

  function AddressBytes(a: Word): (bs: seq<Byte>)
    ensures |bs| == 4
  {
    [ByteOf(a, 3), ByteOf(a, 2), ByteOf(a, 1), ByteOf(a, 0)]
  }

  lemma AddressReads(a: Word)
    ensures BigEndian(AddressBytes(a)) == a
  {
    hide AddressBytes, ByteOf;
    AddressIs(a);
    BigEndian4(ByteOf(a, 3), ByteOf(a, 2), ByteOf(a, 1), ByteOf(a, 0));
    BytesOf(a);
  }

  lemma BytesOf(a: Word)
    ensures a == ((ByteOf(a, 3) * 256 + ByteOf(a, 2)) * 256 + ByteOf(a, 1)) * 256 + ByteOf(a, 0)
  {
    var b, c, d := a / 0x100, a / 0x1_0000, a / 0x100_0000;
    assert a == b * 256 + ByteOf(a, 0);
    assert b == c * 256 + ByteOf(a, 1);
    assert c == d * 256 + ByteOf(a, 2);
  }

  lemma AddressIs(a: Word)
    ensures AddressBytes(a) == [ByteOf(a, 3), ByteOf(a, 2), ByteOf(a, 1), ByteOf(a, 0)]
  {
  }

  lemma BigEndian4(p: Byte, q: Byte, r: Byte, s: Byte)
    ensures BigEndian([p, q, r, s]) == ((p * 256 + q) * 256 + r) * 256 + s
  {
    var all := [p, q, r, s];
    assert all[..3] == [p, q, r] && all[..3][..2] == [p, q] && all[..3][..2][..1] == [p] && [p][..0] == [];
    assert BigEndian([p]) == p;
    assert BigEndian([p, q]) == p * 256 + q;
    assert BigEndian([p, q, r]) == (p * 256 + q) * 256 + r;
  }

  // ---------------------------------------------------------------- one record

  datatype Record =
    | Bad(code: int)
    | Empty
    | Good(kind: int, count: int, addr: nat, data: seq<Byte>)

  /** What follows the first S. */
  function AfterS(s: seq<Byte>): (r: seq<Byte>)
    ensures |r| <= |s|
  {
    if s == [] then [] else if s[0] == LETTER_S then s[1..] else AfterS(s[1..])
  }

  /** Address bytes of a record type; 0 for the types that do not exist. */
  function Width(kind: int): (w: nat)
    ensures w == 0 || 2 <= w <= 4
    ensures w > 0 ==> 0 <= kind <= 9
  {
    if kind == 3 || kind == 7 then 4
    else if kind == 2 || kind == 8 then 3
    else if kind == 0 || kind == 1 || kind == 5 || kind == 9 then 2
    else 0
  }

  /** Data bytes that a length field promises, possibly fewer than none. */
  function DataCount(kind: int, length: int): int {
    if kind == COUNT then 0 else length - Width(kind) - 1
  }

  function AtLeast0(n: int): nat { if n < 0 then 0 else n }

  /** What a line means: all its pairs must read, and sum to 255 modulo 256. */
  function Decode(line: seq<Byte>): (r: Record)
    ensures r.Good? ==> |r.data| == AtLeast0(r.count) && 0 <= r.kind <= 9
    ensures r.Bad? ==> r.code < 0
  {
    var s := AfterS(line);
    if s == [] then Empty
    else
      var kind, length := s[0] - DIGIT_0, Hex2(s[1..]);
      if length < 0 then Bad(E_NOSREC)
      else if Width(kind) == 0 then Bad(E_BADTYPE)
      else Check(kind, length, Pairs(s[3..], Width(kind) + AtLeast0(DataCount(kind, length)) + 1))
  }

  function Check(kind: int, length: nat, fields: Option<seq<Byte>>): (r: Record)
    requires Width(kind) > 0
    requires fields.Some? ==> |fields.value| == Width(kind) + AtLeast0(DataCount(kind, length)) + 1
    ensures r.Good? ==> |r.data| == AtLeast0(r.count) && 0 <= r.kind <= 9
    ensures r.Bad? ==> r.code < 0
  {
    if fields.None? then Bad(E_NOSREC)
    else
      var bs, w := fields.value, Width(kind);
      var last := |bs| - 1;
      if Low8(length + Sum(bs)) != 255 then Bad(E_BADCHKS)
      else Good(kind, DataCount(kind, length), BigEndian(bs[..w]), bs[w..last])
  }

  /** The checksum byte of a record with this payload of address and data. */
  function Checksum(payload: seq<Byte>): Byte { Complement(|payload| + 1 + Sum(payload)) }

  function Mark(kind: int): (s: seq<Byte>)
    requires 0 <= kind <= 9
    ensures |s| == 2
  {
    [LETTER_S, DIGIT_0 + kind]
  }

  /** A record as text, without its line feed. */
  function Encode(kind: int, payload: seq<Byte>): (s: seq<Byte>)
    requires 0 <= kind <= 9 && |payload| < 255
    ensures |s| == 6 + 2 * |payload|
  {
    Mark(kind) + Pair(|payload| + 1) + HexAll(payload + [Checksum(payload)])
  }

  /** Damage to a record: some pairs after the length field are not what was sent. */
  function Spelled(kind: int, fields: seq<Byte>): (s: seq<Byte>)
    requires 0 <= kind <= 9 && |fields| < 256
  {
    Mark(kind) + Pair(|fields|) + HexAll(fields)
  }

  /** Reading a line whose pairs are all there comes down to the checksum. */
  lemma TextReads(kind: int, fields: seq<Byte>)
    requires 0 <= kind <= 9 && 0 < Width(kind) < |fields| < 256 && (kind == COUNT ==> |fields| == Width(kind) + 1)
    ensures Decode(Spelled(kind, fields)) == Check(kind, |fields|, Some(fields))
  {
    hide Hex2, Pair, HexAll, Pairs, Width, Check;
    var t := Spelled(kind, fields);
    var s := t[1..];
    assert AfterS(t) == s;
    assert s[1..] == Pair(|fields|) + HexAll(fields);
    PairReads(|fields|, HexAll(fields));
    assert s[3..] == HexAll(fields) + [];
    PairsOfHex(fields, []);
  }

  /** Every record that is written reads back. */
  lemma EncodeReads(kind: int, payload: seq<Byte>)
    requires 0 <= kind <= 9 && 0 < Width(kind) <= |payload| < 255 && (kind == COUNT ==> |payload| == Width(kind))
    ensures var w := Width(kind);
            Decode(Encode(kind, payload)) == Good(kind, |payload| - w, BigEndian(payload[..w]), payload[w..])
  {
    hide Decode, HexAll, Pair, Width, BigEndian, Complement, Low8, Sum;
    var fields, w := payload + [Checksum(payload)], Width(kind);
    assert Encode(kind, payload) == Spelled(kind, fields);
    TextReads(kind, fields);
    Closes(payload);
    assert fields[..w] == payload[..w] && fields[w..|fields| - 1] == payload[w..];
  }

  lemma SumOne(c: Byte)
    ensures Sum([c]) == c
  {
  }

  lemma Closes(payload: seq<Byte>)
    ensures Low8(|payload| + 1 + Sum(payload + [Checksum(payload)])) == 255
  {
    hide Complement, Low8, Sum;
    var c := Checksum(payload);
    SumConcat(payload, [c]);
    SumOne(c);
    ComplementIff(|payload| + 1 + Sum(payload), c);
  }

  /** Whatever the line, an accepted record sums to 255 modulo 256 and its parts are what its
      pairs say, in order. */
  lemma AcceptedSums(line: seq<Byte>) returns (fields: seq<Byte>)
    requires Decode(line).Good?
    ensures var s, r := AfterS(line), Decode(line);
            && s != [] && r.kind == s[0] - DIGIT_0 && Hex2(s[1..]) >= 0
            && Pairs(s[3..], |fields|) == Some(fields) && Width(r.kind) < |fields|
            && Low8(Hex2(s[1..]) + Sum(fields)) == 255
            && r.data == fields[Width(r.kind)..|fields| - 1] && r.addr == BigEndian(fields[..Width(r.kind)])
  {
    hide AfterS, Hex2, Pairs, Sum, BigEndian, Width, Low8;
    var s := AfterS(line);
    var kind, length := s[0] - DIGIT_0, Hex2(s[1..]);
    fields := Pairs(s[3..], Width(kind) + AtLeast0(DataCount(kind, length)) + 1).value;
  }

  /** One wrong byte anywhere after the length is a bad checksum. */
  lemma OneByteDamageSeen(kind: int, payload: seq<Byte>, k: nat, x: Byte)
    requires 0 <= kind <= 9 && 0 < Width(kind) <= |payload| < 255 && (kind == COUNT ==> |payload| == Width(kind))
    requires var fields := payload + [Checksum(payload)]; k < |fields| && x != fields[k]
    ensures var fields := payload + [Checksum(payload)];
            Decode(Spelled(kind, fields[k := x])) == Bad(E_BADCHKS)
  {
    hide Decode, HexAll, Pair, Width, BigEndian, Checksum, Low8, Sum;
    var fields := payload + [Checksum(payload)];
    TextReads(kind, fields[k := x]);
    Closes(payload);
    SumUpdate(fields, k, x);
    OffByOne(|fields| + Sum(fields), x - fields[k]);
  }

  lemma {:induction false} SumUpdate(bs: seq<Byte>, k: nat, x: Byte)
    requires k < |bs|
    ensures Sum(bs[k := x]) == Sum(bs) + x - bs[k]
  {
    if k == 0 {
      assert bs[k := x][1..] == bs[1..];
    } else {
      assert bs[k := x][1..] == bs[1..][k - 1 := x];
      SumUpdate(bs[1..], k - 1, x);
    }
  }

  lemma OffByOne(t: nat, d: int)
    requires Low8(t) == 255 && -256 < d < 256 && d != 0
    ensures Low8(t + d) != 255
  {
  }
}
