/** The record types of an S-record file, byte by byte: how wide the address of each is, what a
    file of any of them loads, and how lines and digits are read. */
module SRecordKinds {
  import opened Arith
  import opened Bytes
  import opened SRecord
  import opened SRecordTransfer

  // ---------------------------------------------------------------- digits and lines

  /** Digits are read in either case, and nothing else is a digit. */
  lemma DigitsAre(c: Byte)
    ensures Hex1(c) >= 0 <==> 0x30 <= c <= 0x39 || 0x41 <= c <= 0x46 || 0x61 <= c <= 0x66
    ensures 0x30 <= c <= 0x39 ==> Hex1(c) == c - 0x30
    ensures 0x41 <= c <= 0x46 ==> Hex1(c) == c - 0x37 == Hex1(c + 0x20)
  {
  }

  /** A character that a line can hold. */
  predicate Ordinary(c: Byte) { c != 0x0D && c != 0x0A && c != 0 && c != 0x03 }

  /** A line ends at CR or LF, or where the room does; NUL and ^C give up. */
  lemma {:induction false} LineIs(input: seq<Byte>, room: nat, k: nat)
    requires k <= |input| && k <= room && forall i :: 0 <= i < k ==> Ordinary(input[i])
    ensures k == room ==> ReadLine(input, room) == Got(input[..k], input[k..])
    ensures k < room && k == |input| ==> ReadLine(input, room) == Silent
    ensures k < room && k < |input| && (input[k] == 0x0D || input[k] == 0x0A) ==>
              ReadLine(input, room) == Got(input[..k], input[k + 1..])
    ensures k < room && k < |input| && (input[k] == 0 || input[k] == 0x03) ==> ReadLine(input, room) == Stopped
    decreases k
  {
    if k > 0 {
      LineIs(input[1..], room - 1, k - 1);
      assert [input[0]] + input[1..][..k - 1] == input[..k];
      assert input[1..][k - 1..] == input[k..];
      if k < |input| { assert input[1..][k..] == input[k + 1..] && input[1..][k - 1] == input[k]; }
    } else {
      assert input[..0] == [] && input[0..] == input;
    }
  }

  // ---------------------------------------------------------------- addresses

  /** The address bytes of a record type, highest first: two for S0, S1, S5 and S9, three for S2 and
      S8, four for S3 and S7. */
  function Address(kind: int, a: nat): (bs: seq<Byte>)
    requires 0 <= kind <= 9 && a < 0x1_0000_0000
    ensures 2 <= |bs| <= 4
  {
    if kind == 3 || kind == 7 then [a / 0x100_0000, a / 0x1_0000 % 256, a / 0x100 % 256, a % 256]
    else if kind == 2 || kind == 8 then [a / 0x1_0000 % 256, a / 0x100 % 256, a % 256]
    else [a / 0x100 % 256, a % 256]
  }

  /** What those bytes can address. */
  function Reach(kind: int): nat {
    if kind == 3 || kind == 7 then 0x1_0000_0000 else if kind == 2 || kind == 8 then 0x100_0000 else 0x1_0000
  }

  /** Data bytes that a length of one byte leaves room for, beside address and checksum. */
  function Room(kind: int): nat {
    if kind == 3 || kind == 7 then 250 else if kind == 2 || kind == 8 then 251 else 252
  }

  lemma RoomIs(kind: int, a: nat)
    requires 0 <= kind <= 9 && a < 0x1_0000_0000
    ensures |Address(kind, a)| + Room(kind) == 254
  {
  }

  predicate Exists(kind: int) { 0 <= kind <= 9 && kind != 4 && kind != 6 }

  lemma BigEndian2(p: Byte, q: Byte)
    ensures BigEndian([p, q]) == p * 256 + q
  {
    assert [p, q][..1] == [p] && [p][..0] == [];
    assert BigEndian([p]) == p;
  }

  lemma BigEndian3(p: Byte, q: Byte, r: Byte)
    ensures BigEndian([p, q, r]) == (p * 256 + q) * 256 + r
  {
    assert [p, q, r][..2] == [p, q];
    BigEndian2(p, q);
  }

  lemma AddressIsNumber(kind: int, a: nat)
    requires Exists(kind) && a < Reach(kind)
    ensures |Address(kind, a)| == Width(kind) && BigEndian(Address(kind, a)) == a
  {
    hide BigEndian;
    if kind == 3 || kind == 7 {
      FourBytes(a);
    } else if kind == 2 || kind == 8 {
      ThreeBytes(a);
    } else {
      TwoBytes(a);
    }
  }

  lemma TwoBytes(a: nat)
    requires a < 0x1_0000
    ensures BigEndian([a / 0x100 % 256, a % 256]) == a
  {
    hide BigEndian;
    BigEndian2(a / 0x100 % 256, a % 256);
  }

  lemma ThreeBytes(a: nat)
    requires a < 0x100_0000
    ensures BigEndian([a / 0x1_0000 % 256, a / 0x100 % 256, a % 256]) == a
  {
    hide BigEndian;
    var b, c := a / 0x100, a / 0x1_0000;
    assert a == b * 256 + a % 256 && b == c * 256 + b % 256;
    BigEndian3(c % 256, b % 256, a % 256);
  }

  lemma FourBytes(a: nat)
    requires a < 0x1_0000_0000
    ensures BigEndian([a / 0x100_0000, a / 0x1_0000 % 256, a / 0x100 % 256, a % 256]) == a
  {
    hide BigEndian;
    var b, c, d := a / 0x100, a / 0x1_0000, a / 0x100_0000;
    assert a == b * 256 + a % 256 && b == c * 256 + b % 256 && c == d * 256 + c % 256;
    BigEndian4(d, c % 256, b % 256, a % 256);
  }

  /** Every record of every type reads back as its type, its address and its data; a count record has
      its count for an address and no data. */
  lemma RecordReads(kind: int, a: nat, data: seq<Byte>)
    requires Exists(kind) && a < Reach(kind) && |data| <= Room(kind) && (kind == 5 ==> data == [])
    ensures |Address(kind, a) + data| < 255 && Decode(Encode(kind, Address(kind, a) + data)) == Good(kind, |data|, a, data)
  {
    hide Decode, Encode, Width, BigEndian, Address;
    AddressIsNumber(kind, a);
    RoomIs(kind, a);
    WidthBound(kind);
    var payload := Address(kind, a) + data;
    EncodeReads(kind, payload);
    assert payload[..Width(kind)] == Address(kind, a) && payload[Width(kind)..] == data;
  }

  lemma WidthBound(kind: int)
    requires Exists(kind)
    ensures 2 <= Width(kind) <= 4
  {
  }

  /** The types that do not exist are refused as soon as the length is a number. */
  lemma NoSuchType(c: Byte, n: Byte, rest: seq<Byte>)
    requires !Exists(c - 0x30)
    ensures Decode([0x53, c] + Pair(n) + rest) == Bad(-1)
  {
    hide Pair, Hex2, Pairs, Check;
    var line := [0x53, c] + Pair(n) + rest;
    assert line[1..] == [c] + (Pair(n) + rest) && line[1..][1..] == Pair(n) + rest;
    assert AfterS(line) == line[1..];
    PairReads(n, rest);
  }

  /** The text of a record as one sees it: S1, five bytes to come, address 7AF0, data 0A 0A,
      checksum 7C. */
  lemma ExampleRecord()
    ensures Encode(1, [0x7A, 0xF0, 0x0A, 0x0A])
            == [0x53, 0x31, 0x30, 0x35, 0x37, 0x41, 0x46, 0x30, 0x30, 0x41, 0x30, 0x41, 0x37, 0x43]
    ensures Decode([0x53, 0x31, 0x30, 0x35, 0x37, 0x41, 0x46, 0x30, 0x30, 0x41, 0x30, 0x41, 0x37, 0x43])
            == Good(1, 2, 0x7AF0, [0x0A, 0x0A])
  {
    hide Decode, HexAll, Sum;
    var payload: seq<Byte> := [0x7A, 0xF0, 0x0A, 0x0A];
    FourSum(payload);
    assert Checksum(payload) == 0x7C;
    FiveHex(0x7A, 0xF0, 0x0A, 0x0A, 0x7C);
    assert payload + [0x7C] == [0x7A, 0xF0, 0x0A, 0x0A, 0x7C];
    RecordReads(1, 0x7AF0, [0x0A, 0x0A]);
    assert Address(1, 0x7AF0) + [0x0A, 0x0A] == payload;
  }

  lemma FourSum(s: seq<Byte>)
    requires |s| == 4
    ensures Sum(s) == s[0] as int + s[1] as int + s[2] as int + s[3] as int
  {
    assert s[1..][1..] == s[2..] && s[2..][1..] == s[3..] && s[3..][1..] == [];
    assert Sum(s[3..]) == s[3] as int && Sum(s[2..]) == s[2] as int + Sum(s[3..]) && Sum(s[1..]) == s[1] as int + Sum(s[2..]);
  }

  lemma FiveHex(a: Byte, b: Byte, c: Byte, d: Byte, e: Byte)
    ensures HexAll([a, b, c, d, e]) == Pair(a) + Pair(b) + Pair(c) + Pair(d) + Pair(e)
  {
    hide Pair;
    HexOne(e);
    HexConcat([d], [e]);
    HexOne(d);
    HexConcat([c], [d, e]);
    HexOne(c);
    HexConcat([b], [c, d, e]);
    HexOne(b);
    HexConcat([a], [b, c, d, e]);
    HexOne(a);
    assert [d] + [e] == [d, e] && [c] + [d, e] == [c, d, e] && [b] + [c, d, e] == [b, c, d, e] && [a] + [b, c, d, e] == [a, b, c, d, e];
  }

  // ---------------------------------------------------------------- loading

  lemma LineRead(kind: int, a: nat, data: seq<Byte>, rest: seq<Byte>)
    requires Exists(kind) && a < Reach(kind) && |data| <= Room(kind) && (kind == 5 ==> data == [])
    ensures |Address(kind, a) + data| < 255
    ensures var r := ReadLine(Line(kind, Address(kind, a) + data) + rest, MAX_RECORD);
            r.Got? && r.rest == rest && Decode(r.text) == Good(kind, |data|, a, data)
  {
    hide Decode, Encode, Width, ReadLine, Address, Plain;
    AddressIsNumber(kind, a);
    RoomIs(kind, a);
    WidthBound(kind);
    var payload := Address(kind, a) + data;
    EncodeIsPlain(kind, payload);
    ReadLineWhole(Encode(kind, payload), rest, MAX_RECORD);
    RecordReads(kind, a, data);
  }

  /** A data record of any type: where it says, what it says. */
  datatype Rec = Rec(kind: int, addr: nat, data: seq<Byte>)

  predicate Proper(r: Rec) { 1 <= r.kind <= 3 && r.addr < Reach(r.kind) && 0 < |r.data| <= Room(r.kind) }

  /** The record lands inside memory. */
  predicate Fits(r: Rec, offset: int, size: nat) {
    Proper(r) && 0 <= r.addr + offset && r.addr + offset + |r.data| <= size
  }

  predicate AllFit(recs: seq<Rec>, offset: int, size: nat) {
    recs == [] || (Fits(recs[0], offset, size) && AllFit(recs[1..], offset, size))
  }

  /** One record as text. */
  function LineOf(r: Rec): seq<Byte>
    requires Proper(r)
  {
    Line(r.kind, Address(r.kind, r.addr) + r.data)
  }

  function Written(recs: seq<Rec>, offset: int, size: nat): seq<Byte>
    requires AllFit(recs, offset, size)
  {
    if recs == [] then [] else LineOf(recs[0]) + Written(recs[1..], offset, size)
  }

  /** Memory after the records, in order. */
  function Stored(mem: seq<Byte>, recs: seq<Rec>, offset: int): (r: seq<Byte>)
    requires AllFit(recs, offset, |mem|)
    ensures |r| == |mem|
    decreases |recs|
  {
    if recs == [] then mem
    else
      var at := recs[0].addr + offset;
      Stored(mem[..at] + recs[0].data + mem[at + |recs[0].data|..], recs[1..], offset)
  }

  /** The lowest and the highest address stored so far, from which the size of the file is reported. */
  function Lowest(recs: seq<Rec>, offset: int, first: int): int
    decreases |recs|
  {
    if recs == [] then first
    else Lowest(recs[1..], offset, if recs[0].addr + offset < first then recs[0].addr + offset else first)
  }

  function Highest(recs: seq<Rec>, offset: int, last: int): int
    decreases |recs|
  {
    if recs == [] then last
    else
      var end := recs[0].addr + offset + |recs[0].data| - 1;
      Highest(recs[1..], offset, if end > last then end else last)
  }

  lemma {:induction false} LowestIs(recs: seq<Rec>, offset: int, first: int)
    ensures Lowest(recs, offset, first) <= first
    ensures forall i :: 0 <= i < |recs| ==> Lowest(recs, offset, first) <= recs[i].addr + offset
    ensures Lowest(recs, offset, first) == first || exists i :: 0 <= i < |recs| && Lowest(recs, offset, first) == recs[i].addr + offset
    decreases |recs|
  {
    if recs != [] {
      var tail := recs[1..];
      LowestIs(tail, offset, if recs[0].addr + offset < first then recs[0].addr + offset else first);
      assert forall i :: 0 <= i < |tail| ==> tail[i] == recs[i + 1];
    }
  }

  lemma {:induction false} HighestIs(recs: seq<Rec>, offset: int, last: int)
    ensures Highest(recs, offset, last) >= last
    ensures forall i :: 0 <= i < |recs| ==> Highest(recs, offset, last) >= recs[i].addr + offset + |recs[i].data| - 1
    ensures Highest(recs, offset, last) == last ||
            exists i :: 0 <= i < |recs| && Highest(recs, offset, last) == recs[i].addr + offset + |recs[i].data| - 1
    decreases |recs|
  {
    if recs != [] {
      var tail, end := recs[1..], recs[0].addr + offset + |recs[0].data| - 1;
      HighestIs(tail, offset, if end > last then end else last);
      assert forall i :: 0 <= i < |tail| ==> tail[i] == recs[i + 1];
    }
  }

  lemma LoadOne(mem: seq<Byte>, first: nat, last: nat, r: Rec, offset: int, rest: seq<Byte>)
    requires |mem| <= M32 && Fits(r, offset, |mem|)
    ensures var at := r.addr + offset;
            Load(mem, first, last, LineOf(r) + rest, offset)
            == Load(Put(mem, at, r.data), Lower(at, first), Higher(at + |r.data| - 1, last), rest, offset)
  {
    hide Decode, ReadLine, Line, Put, Wrap, Address;
    LineRead(r.kind, r.addr, r.data, rest);
    SRecordTransfer.InRange(r.addr + offset);
    SRecordTransfer.InRange(r.addr + offset + |r.data| - 1);
  }

  /** A file of data records of any types is stored where their addresses say, and the end record,
      of any type, gives the start address; what follows it is not looked at. */
  lemma {:induction false} FileLoads(mem: seq<Byte>, first: nat, last: nat, recs: seq<Rec>, endKind: int, entry: nat, offset: int, tail: seq<Byte>)
    requires |mem| <= M32 && AllFit(recs, offset, |mem|)
    requires 7 <= endKind <= 9 && entry < Reach(endKind)
    ensures var r := Load(mem, first, last, Written(recs, offset, |mem|) + Line(endKind, Address(endKind, entry)) + tail, offset);
            && r.outcome == Started(entry) && r.mem == Stored(mem, recs, offset)
            && r.first == Lowest(recs, offset, first) && r.last == Highest(recs, offset, last)
    decreases |recs|
  {
    hide Decode, ReadLine, Line, LineOf, Wrap, Address, Load;
    var end := Line(endKind, Address(endKind, entry));
    if recs == [] {
      EndLoads(mem, first, last, endKind, entry, offset, tail);
      assert Written(recs, offset, |mem|) + end + tail == end + tail;
    } else {
      var r := recs[0];
      var at := r.addr + offset;
      var more := Written(recs[1..], offset, |mem|);
      LoadOne(mem, first, last, r, offset, more + end + tail);
      assert Written(recs, offset, |mem|) + end + tail == LineOf(r) + (more + end + tail);
      FileLoads(Put(mem, at, r.data), Lower(at, first), Higher(at + |r.data| - 1, last), recs[1..], endKind, entry, offset, tail);
    }
  }

  lemma EndLoads(mem: seq<Byte>, first: nat, last: nat, kind: int, entry: nat, offset: int, tail: seq<Byte>)
    requires 7 <= kind <= 9 && entry < Reach(kind)
    ensures Load(mem, first, last, Line(kind, Address(kind, entry)) + tail, offset) == Loading(Started(entry), mem, first, last)
  {
    hide Decode, ReadLine, Line, Address;
    LineRead(kind, entry, [], tail);
    assert Address(kind, entry) + [] == Address(kind, entry);
  }

  /** Start and count records say nothing about memory. */
  lemma OthersSkipped(mem: seq<Byte>, first: nat, last: nat, kind: int, a: nat, data: seq<Byte>, offset: int, rest: seq<Byte>)
    requires kind == 0 || (kind == 5 && data == [])
    requires a < 0x1_0000 && |data| <= 252
    ensures Load(mem, first, last, Line(kind, Address(kind, a) + data) + rest, offset) == Load(mem, first, last, rest, offset)
  {
    hide Decode, ReadLine, Line, Address;
    LineRead(kind, a, data, rest);
  }

  /** A damaged line aborts the load; what came before it is stored, nothing of the line is. */
  lemma DamageAborts(mem: seq<Byte>, first: nat, last: nat, kind: int, payload: seq<Byte>, k: nat, x: Byte, offset: int, rest: seq<Byte>)
    requires Exists(kind) && Width(kind) <= |payload| < 255 && (kind == 5 ==> |payload| == 2)
    requires var fields := payload + [Checksum(payload)]; k < |fields| && x != fields[k]
    ensures var fields := payload + [Checksum(payload)];
            Load(mem, first, last, Spelled(kind, fields[k := x]) + [0x0A] + rest, offset) == Loading(Aborted, mem, first, last)
  {
    hide Decode, ReadLine, Checksum, Spelled, Width, Plain;
    var fields := payload + [Checksum(payload)];
    WidthBound(kind);
    OneByteDamageSeen(kind, payload, k, x);
    TextIsPlain(kind, fields[k := x]);
    ReadLineWhole(Spelled(kind, fields[k := x]), rest, MAX_RECORD);
  }

  lemma TextIsPlain(kind: int, fields: seq<Byte>)
    requires 0 <= kind <= 9 && |fields| < 256
    ensures Plain(Spelled(kind, fields)) && |Spelled(kind, fields)| == 4 + 2 * |fields|
  {
    hide HexAll, Pair;
    PairIsPlain(|fields|);
    HexIsPlain(fields);
  }

  // ---------------------------------------------------------------- saving

  /** The records of a stretch, one by one: sixteen bytes each, the last one what is left. */
  lemma {:induction false} DataLinesAre(bytes: seq<Byte>, address: nat, k: nat)
    requires address + |bytes| <= M32 && 16 * k < |bytes|
    ensures 16 * |DataLines(bytes, address)| - 16 < |bytes| <= 16 * |DataLines(bytes, address)|
    ensures var end := if 16 * k + 16 < |bytes| then 16 * k + 16 else |bytes|;
            DataLines(bytes, address)[k] == DataLine(address + 16 * k, bytes[16 * k..end])
    decreases |bytes|
  {
    hide DataLine, DataLines;
    var n := Chunk(|bytes|);
    var rest := bytes[n..];
    DataLinesOne(bytes, address);
    if rest == [] {
      assert bytes[0..n] == bytes[..n];
    } else {
      DataLinesAre(rest, address + n, if k > 0 then k - 1 else 0);
      if k > 0 {
        var end := if 16 * k + 16 < |bytes| then 16 * k + 16 else |bytes|;
        assert n == 16 && |rest| == |bytes| - 16;
        assert rest[16 * k - 16..end - 16] == bytes[16 * k..end];
      }
    }
  }

  lemma DataLinesOne(bytes: seq<Byte>, address: nat)
    requires address + |bytes| <= M32 && bytes != []
    ensures var n := Chunk(|bytes|);
            && DataLines(bytes, address) == [DataLine(address, bytes[..n])] + DataLines(bytes[n..], address + n)
            && (bytes[n..] == [] ==> DataLines(bytes[n..], address + n) == [])
  {
    hide DataLine;
  }

  /** A data line, character by character: S3, then pairs for the length, the four address bytes, the
      data and a checksum that closes the sum at 255, and a line feed. */
  lemma DataLineIs(a: Word, bytes: seq<Byte>) returns (checksum: Byte)
    requires |bytes| <= 16
    ensures var line, f := DataLine(a, bytes), [5 + |bytes|] + Address(3, a) + bytes + [checksum];
            line[..2] == [0x53, 0x33] && Pairs(line[2..], |f|) == Some(f) && line[2 + 2 * |f|..] == [0x0A] && Low8(Sum(f)) == 255
  {
    hide Pair, HexAll, Checksum, Sum, Low8, Pairs, Address, AddressBytes;
    SameAddress(a);
    var n: Byte, payload := 5 + |bytes|, AddressBytes(a) + bytes;
    checksum := Checksum(payload);
    var rest := payload + [checksum];
    var f: seq<Byte> := [n] + Address(3, a) + bytes + [checksum];
    assert f == [n] + rest;
    FieldText(n, rest);
    var line := DataLine(a, bytes);
    assert line == Mark(3) + (HexAll(f) + [0x0A]);
    assert line[2..] == HexAll(f) + [0x0A] && line[2 + 2 * |f|..] == [0x0A];
    PairsOfHex(f, [0x0A]);
    SumConcat([n], rest);
    SumOne(n);
    Closes(payload);
  }

  lemma FieldText(n: Byte, rest: seq<Byte>)
    ensures Pair(n) + HexAll(rest) == HexAll([n] + rest)
  {
    hide Pair, HexAll;
    HexOne(n);
    HexConcat([n], rest);
  }

  lemma SameAddress(a: Word)
    ensures AddressBytes(a) == Address(3, a)
  {
  }
}
